/** The cross-memory-attach engine: the block list is handed to process_vm_readv in windows of at most
    CMA_IOV_LIMIT entries (benchmark_cma). */
module Cma {
  import opened Iovec
  import opened Arithmetic

  /** process_vm_readv when nothing goes wrong: it moves as many bytes as both lists hold, in list order. */
  method ProcessVmReadv(local: array<byte>, lv: seq<IoVec>, remote: array<byte>, rv: seq<IoVec>)
    returns (copied: nat)
    requires local != remote && InMemory(lv, local.Length) && InMemory(rv, remote.Length)
    modifies local
    ensures copied == if Total(lv) <= Total(rv) then Total(lv) else Total(rv)
    ensures local[..] == Unpacked(old(local[..]), lv, Packed(remote[..], rv), copied)
  {
    ghost var before, stream := local[..], Packed(remote[..], rv);
    UnpackedNothing(before, lv, stream);
    var n := if Total(lv) <= Total(rv) then Total(lv) else Total(rv);
    copied := 0;
    while copied < n
      invariant copied <= n
      invariant local[..] == Unpacked(before, lv, stream, copied)
    {
      AddrInMemory(lv, local.Length, copied);
      AddrInMemory(rv, remote.Length, copied);
      UnpackedByte(before, lv, stream, copied);
      ghost var bytes := local[..];
      local[AddrOf(lv, copied)] := remote[AddrOf(rv, copied)];
      assert local[..] == bytes[AddrOf(lv, copied) := stream[copied]];
      copied := copied + 1;
    }
  }

  // --------------------------------------------------------------------------------------------
  // A window of a list is a stretch of its stream.

  ghost predicate Window(v: seq<IoVec>, a: nat, w: seq<IoVec>) {
    a + |w| <= |v| && forall i :: 0 <= i < |w| ==> w[i] == v[a + i]
  }

  lemma {:induction false} WindowOffset(v: seq<IoVec>, a: nat, w: seq<IoVec>, i: nat)
    requires Window(v, a, w) && i <= |w|
    ensures Offset(v, a + i) == Offset(v, a) + Offset(w, i)
  {
    if i == 0 {
    } else {
      WindowOffset(v, a, w, i - 1);
    }
  }

  lemma WindowTotal(v: seq<IoVec>, a: nat, w: seq<IoVec>)
    requires Window(v, a, w)
    ensures Offset(v, a) + Total(w) == Offset(v, a + |w|) <= Total(v)
  {
    WindowOffset(v, a, w, |w|);
    OffsetMonotone(v, a + |w|, |v|);
  }

  lemma WindowAddr(v: seq<IoVec>, a: nat, w: seq<IoVec>, k: nat)
    requires Window(v, a, w) && k < Total(w)
    ensures Offset(v, a) + k < Total(v)
    ensures AddrOf(w, k) == AddrOf(v, Offset(v, a) + k)
  {
    var i := Locate(w, |w|, k);
    WindowOffset(v, a, w, i);
    AddrInBlock(v, a + i, k - Offset(w, i));
  }

  /** Stream byte k of the window is stream byte Offset(v, a) + k of the list. */
  lemma WindowAddresses(v: seq<IoVec>, a: nat, w: seq<IoVec>)
    requires Window(v, a, w)
    ensures Offset(v, a) + Total(w) == Offset(v, a + |w|) <= Total(v)
    ensures forall k :: 0 <= k < Total(w) ==> AddrOf(w, k) == AddrOf(v, Offset(v, a) + k)
  {
    WindowTotal(v, a, w);
    forall k | 0 <= k < Total(w)
      ensures AddrOf(w, k) == AddrOf(v, Offset(v, a) + k)
    {
      WindowAddr(v, a, w, k);
    }
  }

  lemma ShiftedPacked(mem: seq<byte>, v: seq<IoVec>, n: nat, w: seq<IoVec>)
    requires n + Total(w) <= Total(v) && InMemory(v, |mem|) && InMemory(w, |mem|)
    requires forall k :: 0 <= k < Total(w) ==> AddrOf(w, k) == AddrOf(v, n + k)
    ensures Packed(mem, w) == Packed(mem, v)[n..n + Total(w)]
  {
  }

  /** A window packs to its stretch of the stream. */
  lemma WindowPacked(mem: seq<byte>, v: seq<IoVec>, a: nat, w: seq<IoVec>)
    requires Window(v, a, w) && InMemory(v, |mem|)
    ensures InMemory(w, |mem|) && Offset(v, a) + Total(w) <= Total(v)
    ensures Packed(mem, w) == Packed(mem, v)[Offset(v, a)..Offset(v, a) + Total(w)]
  {
    WindowAddresses(v, a, w);
    ShiftedPacked(mem, v, Offset(v, a), w);
  }

  lemma {:induction false} ShiftedLastWrite(v: seq<IoVec>, n: nat, w: seq<IoVec>, m: nat, x: nat)
    requires n + m <= Total(v) && m <= Total(w)
    requires forall k :: 0 <= k < m ==> AddrOf(w, k) == AddrOf(v, n + k)
    ensures LastWrite(v, x, n + m)
         == if LastWrite(w, x, m) < 0 then LastWrite(v, x, n) else n + LastWrite(w, x, m)
  {
    if m == 0 {
    } else {
      ShiftedLastWrite(v, n, w, m - 1, x);
      assert AddrOf(w, m - 1) == AddrOf(v, n + (m - 1));
    }
  }

  /** If the list w gives m stream bytes the addresses that v gives bytes n..n+m, unpacking them through w
      continues unpacking through v. */
  lemma ShiftedUnpacked(mem: seq<byte>, v: seq<IoVec>, data: seq<byte>, n: nat, w: seq<IoVec>, m: nat)
    requires n + m <= Total(v) && m <= Total(w) && n + m <= |data|
    requires forall k :: 0 <= k < m ==> AddrOf(w, k) == AddrOf(v, n + k)
    ensures Unpacked(Unpacked(mem, v, data, n), w, data[n..n + m], m) == Unpacked(mem, v, data, n + m)
  {
    var r, want := Unpacked(Unpacked(mem, v, data, n), w, data[n..n + m], m), Unpacked(mem, v, data, n + m);
    forall x | 0 <= x < |mem|
      ensures r[x] == want[x]
    {
      ShiftedLastWrite(v, n, w, m, x);
    }
  }

  /** Reading one more window extends the unpacked prefix to the end of that window. */
  lemma WindowUnpacked(mem: seq<byte>, v: seq<IoVec>, data: seq<byte>, a: nat, w: seq<IoVec>)
    requires Window(v, a, w) && Total(v) <= |data|
    ensures Offset(v, a) + Total(w) == Offset(v, a + |w|) <= Total(v)
    ensures var n, m := Offset(v, a), Total(w);
      Unpacked(Unpacked(mem, v, data, n), w, data[n..n + m], m) == Unpacked(mem, v, data, n + m)
  {
    WindowAddresses(v, a, w);
    ShiftedUnpacked(mem, v, data, Offset(v, a), w, Total(w));
  }

  // --------------------------------------------------------------------------------------------

  ghost predicate SameShape(v: seq<IoVec>, w: seq<IoVec>) {
    |v| == |w| && forall i :: 0 <= i < |v| ==> v[i].len == w[i].len
  }

  lemma {:induction false} SameShapeOffset(v: seq<IoVec>, w: seq<IoVec>, i: nat)
    requires SameShape(v, w) && i <= |v|
    ensures Offset(v, i) == Offset(w, i)
  {
    if i == 0 {
    } else {
      SameShapeOffset(v, w, i - 1);
    }
  }

  lemma SameShapeTotal(v: seq<IoVec>, w: seq<IoVec>)
    requires SameShape(v, w)
    ensures Total(v) == Total(w)
  {
    SameShapeOffset(v, w, |v|);
  }

  /** What a caller can check: one window is enough, or the list is a whole number of full windows. */
  predicate WindowsFit(nblocks: nat, limit: nat)
    requires limit > 0
  {
    nblocks <= limit || nblocks % limit == 0
  }

  /** Where windows can start. */
  ghost predicate Aligned(iovOff: nat, nblocks: nat, limit: nat)
    requires limit > 0
  {
    && iovOff <= nblocks
    && if nblocks <= limit then iovOff == 0 || iovOff == nblocks else iovOff % limit == 0
  }

  lemma NextWindow(iovOff: nat, nblocks: nat, limit: nat)
    requires limit > 0 && Aligned(iovOff, nblocks, limit) && iovOff < nblocks
    ensures var to := iovOff + if nblocks < limit then nblocks else limit;
            if to <= nblocks then Aligned(to, nblocks, limit) else !WindowsFit(nblocks, limit)
  {
    if nblocks > limit {
      var q := iovOff / limit;
      assert iovOff == q * limit;
      MulStep(q, limit);
      WholeChunks(iovOff + limit, q + 1, limit);
      WholeChunks(nblocks, q, limit);
    }
  }

  /** Window i reaches from block cuts[i] to block cuts[i + 1]; the windows have at most `limit` entries and
      lead from block 0 to block nblocks without a gap. */
  ghost predicate Tiles(cuts: seq<nat>, nblocks: nat, limit: nat) {
    && |cuts| > 0 && cuts[0] == 0 && cuts[|cuts| - 1] == nblocks
    && forall i, j :: 0 <= i && j == i + 1 < |cuts| ==> cuts[i] < cuts[j] <= cuts[i] + limit
  }

  /** Every window starts where the one before it ended, and all have the same width. */
  ghost predicate Regular(cuts: seq<nat>, width: nat) {
    forall i :: 0 <= i < |cuts| ==> cuts[i] == i * width
  }

  lemma RegularExtend(cuts: seq<nat>, width: nat, to: nat)
    requires |cuts| > 0 && Regular(cuts, width) && to == cuts[|cuts| - 1] + width
    ensures Regular(cuts + [to], width)
  {
    MulStep(|cuts| - 1, width);
  }

  /** The blocks at which one receive starts a window, and the end of the last window. */
  function Cuts(nblocks: nat, limit: nat): seq<nat>
    requires limit > 0
  {
    seq(1 + if nblocks == 0 then 0 else if nblocks < limit then 1 else nblocks / limit,
        (i: nat) => i * if nblocks < limit then nblocks else limit)
  }

  /** How many windows have been read when no further one fits. */
  lemma CountWindows(nblocks: nat, limit: nat, width: nat, k: nat, iovOff: nat)
    requires limit > 0 && nblocks > 0 && width == if nblocks < limit then nblocks else limit
    requires iovOff == k * width <= nblocks < iovOff + width
    ensures k == if nblocks < limit then 1 else nblocks / limit
  {
    DivisionUnique(nblocks, width, k, nblocks - iovOff);
    if nblocks < limit {
      DivisionUnique(nblocks, nblocks, 1, 0);
    }
  }

  lemma TilesExtend(cuts: seq<nat>, nblocks: nat, limit: nat, to: nat)
    requires Tiles(cuts, nblocks, limit) && nblocks < to <= nblocks + limit
    ensures Tiles(cuts + [to], to, limit)
  {
  }

  lemma {:induction false} CutsIncrease(cuts: seq<nat>, nblocks: nat, limit: nat, i: nat, j: nat)
    requires Tiles(cuts, nblocks, limit) && i < j < |cuts|
    ensures cuts[i] < cuts[j]
  {
    assert cuts[j - 1] < cuts[j];
    if i == j - 1 {
    } else {
      CutsIncrease(cuts, nblocks, limit, i, j - 1);
    }
  }

  /** Tiling windows cover every block exactly once. */
  lemma TilesCover(cuts: seq<nat>, nblocks: nat, limit: nat, b: nat) returns (i: nat)
    requires Tiles(cuts, nblocks, limit) && b < nblocks
    ensures i + 1 < |cuts| && cuts[i] <= b < cuts[i + 1]
    ensures forall j, k :: 0 <= j && k == j + 1 < |cuts| && cuts[j] <= b < cuts[k] ==> j == i
  {
    i := |cuts| - 2;
    while cuts[i] > b
      invariant i + 1 < |cuts| && b < cuts[i + 1]
    {
      i := i - 1;
    }
    forall j, k | 0 <= j && k == j + 1 < |cuts| && cuts[j] <= b < cuts[k]
      ensures j == i
    {
      if j < i && k < i {
        CutsIncrease(cuts, nblocks, limit, k, i);
      } else if i + 1 < j {
        CutsIncrease(cuts, nblocks, limit, i + 1, j);
      }
    }
  }

  lemma ReadOneWindow(before: seq<byte>, source: seq<byte>, liov: seq<IoVec>, riov: seq<IoVec>, a: nat,
                      lw: seq<IoVec>, rw: seq<IoVec>)
    requires SameShape(liov, riov) && InMemory(riov, |source|)
    requires Window(liov, a, lw) && Window(riov, a, rw) && |lw| == |rw|
    ensures Total(lw) == Total(rw) && InMemory(rw, |source|) && Total(liov) == Total(riov)
    ensures Offset(liov, a) + Total(lw) == Offset(liov, a + |lw|) <= Total(liov)
    ensures Unpacked(Unpacked(before, liov, Packed(source, riov), Offset(liov, a)), lw, Packed(source, rw), Total(lw))
         == Unpacked(before, liov, Packed(source, riov), Offset(liov, a + |lw|))
  {
    SameShapeTotal(liov, riov);
    SameShapeOffset(liov, riov, a);
    SameShapeTotal(lw, rw);
    WindowPacked(source, riov, a, rw);
    WindowTotal(liov, a, lw);
    WindowUnpacked(before, liov, Packed(source, riov), a, lw);
  }

  /** One window: afterwards the bytes of all blocks up to its end are in place. */
  method ReadWindow(local: array<byte>, remote: array<byte>, liov: seq<IoVec>, riov: seq<IoVec>,
                    iovOff: nat, currBlks: nat, ghost before: seq<byte>)
    returns (bytesCopied: nat)
    requires local != remote && SameShape(liov, riov) && |before| == local.Length
    requires InMemory(liov, local.Length) && InMemory(riov, remote.Length)
    requires iovOff + currBlks <= |liov| && Offset(liov, iovOff) <= Total(liov) == Total(riov)
    requires local[..] == Unpacked(before, liov, Packed(remote[..], riov), Offset(liov, iovOff))
    modifies local
    ensures Offset(liov, iovOff) + bytesCopied == Offset(liov, iovOff + currBlks) <= Total(liov)
    ensures local[..] == Unpacked(before, liov, Packed(remote[..], riov), Offset(liov, iovOff + currBlks))
  {
    var lw, rw := liov[iovOff..iovOff + currBlks], riov[iovOff..iovOff + currBlks];
    ghost var source := remote[..];
    ReadOneWindow(before, source, liov, riov, iovOff, lw, rw);
    bytesCopied := ProcessVmReadv(local, lw, remote, rw);
    assert remote[..] == source;
  }

  lemma BytesLeft(liov: seq<IoVec>, riov: seq<IoVec>, iovOff: nat)
    requires SameShape(liov, riov) && iovOff < |liov| && forall i :: 0 <= i < |riov| ==> riov[i].len > 0
    ensures Offset(liov, iovOff) < Total(liov)
  {
    assert liov[iovOff].len == riov[iovOff].len;
    OffsetMonotone(liov, iovOff + 1, |liov|);
  }

  /** A receiver's copy phase. `inBounds` is false when a window is about to run past the end of the lists;
      the contract says exactly when that happens. */
  method CmaReceive(local: array<byte>, remote: array<byte>, liov: seq<IoVec>, riov: seq<IoVec>,
                    limit: nat, blocksize: nat, bufsize: nat)
    returns (inBounds: bool, totalCopied: nat, remaining: nat, ghost cuts: seq<nat>)
    requires local != remote && limit > 0 && blocksize > 0 && |liov| == bufsize / blocksize
    requires |liov| == |riov| && forall i :: 0 <= i < |liov| ==> liov[i].len == riov[i].len
    requires InMemory(liov, local.Length) && InMemory(riov, remote.Length)
    requires Total(riov) <= bufsize && forall i :: 0 <= i < |riov| ==> riov[i].len > 0
    modifies local
    ensures Total(liov) == Total(riov)
    ensures inBounds <==> WindowsFit(|liov|, limit)
    ensures inBounds ==> totalCopied == Total(riov) && totalCopied + remaining == bufsize
    ensures inBounds ==> local[..] == Unpacked(old(local[..]), liov, Packed(remote[..], riov), Total(riov))
    ensures inBounds ==> Tiles(cuts, |liov|, limit)
    ensures forall i :: 0 <= i < |cuts| ==> cuts[i] == i * if |liov| < limit then |liov| else limit
    ensures |cuts| == 1 + if |liov| == 0 then 0 else if |liov| < limit then 1 else |liov| / limit
  {
    var nblocks := bufsize / blocksize;
    var iovOff: nat := 0;
    ghost var before := local[..];
    inBounds, totalCopied, remaining, cuts := true, 0, bufsize, [0];
    SameShapeTotal(liov, riov);
    UnpackedNothing(before, liov, Packed(remote[..], riov));
    while remaining > 0 && iovOff < nblocks
      invariant Aligned(iovOff, nblocks, limit)
      invariant totalCopied + remaining == bufsize
      invariant totalCopied == Offset(liov, iovOff) <= Total(liov)
      invariant local[..] == Unpacked(before, liov, Packed(remote[..], riov), totalCopied)
      invariant Tiles(cuts, iovOff, limit) && Regular(cuts, if nblocks < limit then nblocks else limit)
      invariant nblocks == 0 ==> |cuts| == 1
      decreases nblocks - iovOff
    {
      var currBlks := if nblocks < limit then nblocks else limit;
      NextWindow(iovOff, nblocks, limit);
      if iovOff + currBlks > nblocks {
        CountWindows(nblocks, limit, currBlks, |cuts| - 1, iovOff);
        inBounds := false;
        return;
      }
      var bytesCopied := ReadWindow(local, remote, liov, riov, iovOff, currBlks, before);
      totalCopied := totalCopied + bytesCopied;
      remaining := remaining - bytesCopied;
      TilesExtend(cuts, iovOff, limit, iovOff + currBlks);
      RegularExtend(cuts, currBlks, iovOff + currBlks);
      cuts := cuts + [iovOff + currBlks];
      iovOff := iovOff + currBlks;
    }
    if iovOff < nblocks {
      BytesLeft(liov, riov, iovOff);
    }
    if nblocks > 0 {
      CountWindows(nblocks, limit, if nblocks < limit then nblocks else limit, |cuts| - 1, iovOff);
    }
  }
}
