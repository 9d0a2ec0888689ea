/** Scatter/gather lists over a flat process memory.
    A block list is read as one byte stream: the k-th byte of the stream lives at address `AddrOf(v, k)`.
    Every transfer engine is specified against the two functions `Packed` (memory to stream) and
    `Unpacked` (stream to memory), which do not mention loops, cursors or chunks. */
module Iovec {

  newtype byte = x: int | 0 <= x < 256

  /** struct iovec; a base address is an index into the memory of the owning process. */
  datatype IoVec = IoVec(base: nat, len: nat)

  /** The number of stream bytes in front of block i. */
  function Offset(v: seq<IoVec>, i: nat): nat
    requires i <= |v|
  {
    if i == 0 then 0 else Offset(v, i - 1) + v[i - 1].len
  }

  function Total(v: seq<IoVec>): nat {
    Offset(v, |v|)
  }

  lemma {:induction false} OffsetMonotone(v: seq<IoVec>, i: nat, j: nat)
    requires i <= j <= |v|
    ensures Offset(v, i) <= Offset(v, j)
  {
    if i == j {
    } else {
      OffsetMonotone(v, i, j - 1);
    }
  }

  /** The block, among the first n, that holds stream byte k. */
  function Locate(v: seq<IoVec>, n: nat, k: nat): (i: nat)
    requires n <= |v| && k < Offset(v, n)
    ensures i < n && Offset(v, i) <= k < Offset(v, i + 1)
  {
    if Offset(v, n - 1) <= k then n - 1 else Locate(v, n - 1, k)
  }

  /** The address of stream byte k. */
  function AddrOf(v: seq<IoVec>, k: nat): nat
    requires k < Total(v)
  {
    var i := Locate(v, |v|, k);
    v[i].base + (k - Offset(v, i))
  }

  /** Byte t of block i is stream byte Offset(v, i) + t, whatever the other blocks are. */
  lemma {:induction false} AddrInBlock(v: seq<IoVec>, i: nat, t: nat)
    requires i < |v| && t < v[i].len
    ensures Offset(v, i) + t < Total(v)
    ensures AddrOf(v, Offset(v, i) + t) == v[i].base + t
  {
    var k := Offset(v, i) + t;
    assert k < Offset(v, i + 1);
    OffsetMonotone(v, i + 1, |v|);
    var j := Locate(v, |v|, k);
    if j < i {
      OffsetMonotone(v, j + 1, i);
    } else if i < j {
      OffsetMonotone(v, i + 1, j);
    }
  }

  ghost predicate InMemory(v: seq<IoVec>, size: nat) {
    forall i :: 0 <= i < |v| ==> v[i].base + v[i].len <= size
  }

  /** Blocks may come in any order, overlap and be empty. */
  lemma InMemoryExtends(v: seq<IoVec>, b: IoVec, size: nat)
    ensures InMemory([], size)
    ensures InMemory(v + [b], size) <==> InMemory(v, size) && b.base + b.len <= size
  {
    if InMemory(v + [b], size) {
      assert (v + [b])[|v|] == b;
      assert forall i :: 0 <= i < |v| ==> (v + [b])[i] == v[i];
    }
  }

  lemma AddrInMemory(v: seq<IoVec>, size: nat, k: nat)
    requires InMemory(v, size) && k < Total(v)
    ensures AddrOf(v, k) < size
  {
    var i := Locate(v, |v|, k);
    assert v[i].base + v[i].len <= size;
  }

  /** The byte stream that the list v denotes in memory mem. */
  function Packed(mem: seq<byte>, v: seq<IoVec>): (s: seq<byte>)
    requires InMemory(v, |mem|)
    ensures |s| == Total(v)
  {
    seq(Total(v), k requires 0 <= k < Total(v) => AddrInMemory(v, |mem|, k); mem[AddrOf(v, k)])
  }

  /** s with the bytes from position `at` on replaced by d: what a memcpy does. */
  function Splice(s: seq<byte>, at: nat, d: seq<byte>): (r: seq<byte>)
    requires at + |d| <= |s|
    ensures |r| == |s|
    ensures forall i :: 0 <= i < |s| ==> r[i] == if at <= i < at + |d| then d[i - at] else s[i]
  {
    s[..at] + d + s[at + |d|..]
  }

  lemma SpliceAgain(s: seq<byte>, at: nat, d: seq<byte>, e: seq<byte>)
    requires at + |d| <= |s| && |e| == |d|
    ensures Splice(Splice(s, at, d), at, e) == Splice(s, at, e)
  {
  }

  /** The last of the first n stream bytes that is stored at address a, or -1. */
  function LastWrite(v: seq<IoVec>, a: nat, n: nat): (k: int)
    requires n <= Total(v)
    ensures -1 <= k < n
    ensures k >= 0 ==> AddrOf(v, k) == a
    ensures forall l :: 0 <= l < n && k < l ==> AddrOf(v, l) != a
  {
    if n == 0 then -1
    else if AddrOf(v, n - 1) == a then n - 1
    else LastWrite(v, a, n - 1)
  }

  /** Memory after the first n bytes of the stream `data` have been stored, in stream order,
      at the addresses the list v gives them. The blocks of v may overlap. */
  function Unpacked(mem: seq<byte>, v: seq<IoVec>, data: seq<byte>, n: nat): (r: seq<byte>)
    requires n <= Total(v) && n <= |data|
    ensures |r| == |mem|
  {
    seq(|mem|, a requires 0 <= a < |mem| => var k := LastWrite(v, a, n); if k < 0 then mem[a] else data[k])
  }

  lemma UnpackedNothing(mem: seq<byte>, v: seq<IoVec>, data: seq<byte>)
    ensures Unpacked(mem, v, data, 0) == mem
  {
  }

  /** If stream bytes n.. lie at addresses a.., unpacking them is one memcpy. */
  lemma UnpackedRun(mem: seq<byte>, v: seq<IoVec>, data: seq<byte>, n: nat, len: nat, a: nat)
    requires n + len <= Total(v) && n + len <= |data| && a + len <= |mem|
    requires forall k :: n <= k < n + len ==> AddrOf(v, k) == k - n + a
    ensures Unpacked(mem, v, data, n + len) == Splice(Unpacked(mem, v, data, n), a, data[n..n + len])
  {
    var r, want := Unpacked(mem, v, data, n + len), Splice(Unpacked(mem, v, data, n), a, data[n..n + len]);
    forall x | 0 <= x < |mem|
      ensures r[x] == want[x]
    {
      if a <= x < a + len {
        assert AddrOf(v, n + (x - a)) == x;
      }
    }
  }

  /** Storing one more stream byte is one memory update. */
  lemma UnpackedByte(mem: seq<byte>, v: seq<IoVec>, data: seq<byte>, n: nat)
    requires n < Total(v) && n < |data| && AddrOf(v, n) < |mem|
    ensures Unpacked(mem, v, data, n + 1) == Unpacked(mem, v, data, n)[AddrOf(v, n) := data[n]]
  {
    UnpackedRun(mem, v, data, n, 1, AddrOf(v, n));
  }

  lemma BlockAddresses(v: seq<IoVec>, i: nat, off: nat, len: nat)
    requires i < |v| && off + len <= v[i].len
    ensures Offset(v, i) + off + len <= Total(v)
    ensures forall k :: Offset(v, i) + off <= k < Offset(v, i) + off + len
              ==> AddrOf(v, k) == k - (Offset(v, i) + off) + (v[i].base + off)
  {
    OffsetMonotone(v, i + 1, |v|);
    forall k | Offset(v, i) + off <= k < Offset(v, i) + off + len
      ensures AddrOf(v, k) == k - (Offset(v, i) + off) + (v[i].base + off)
    {
      AddrInBlock(v, i, k - Offset(v, i));
    }
  }

  lemma SameSlice(s: seq<byte>, n: nat, m: seq<byte>, a: nat, len: nat)
    requires n + len <= |s| && a + len <= |m|
    requires forall k :: n <= k < n + len ==> s[k] == m[k - n + a]
    ensures s[n..n + len] == m[a..a + len]
  {
  }

  /** Within a block the packed stream is the block's own bytes. */
  lemma PackedSegment(mem: seq<byte>, v: seq<IoVec>, i: nat, off: nat, len: nat)
    requires InMemory(v, |mem|) && i < |v| && off + len <= v[i].len
    ensures Offset(v, i) + off + len <= Total(v)
    ensures Packed(mem, v)[Offset(v, i) + off..Offset(v, i) + off + len]
         == mem[v[i].base + off..v[i].base + off + len]
  {
    BlockAddresses(v, i, off, len);
    SameSlice(Packed(mem, v), Offset(v, i) + off, mem, v[i].base + off, len);
  }

  /** A region after the first n stream bytes of the list v have been stored in it from position `at` on. */
  function Stored(region: seq<byte>, at: nat, mem: seq<byte>, v: seq<IoVec>, n: nat): (r: seq<byte>)
    requires InMemory(v, |mem|) && n <= Total(v) && at + Total(v) <= |region|
    ensures |r| == |region|
  {
    seq(|region|, k requires 0 <= k < |region| =>
      if at <= k < at + n then AddrInMemory(v, |mem|, k - at); mem[AddrOf(v, k - at)] else region[k])
  }

  lemma StoredNothing(region: seq<byte>, at: nat, mem: seq<byte>, v: seq<IoVec>)
    requires InMemory(v, |mem|) && at + Total(v) <= |region|
    ensures Stored(region, at, mem, v, 0) == region
  {
  }

  lemma StoredAll(region: seq<byte>, at: nat, mem: seq<byte>, v: seq<IoVec>)
    requires InMemory(v, |mem|) && at + Total(v) <= |region|
    ensures Stored(region, at, mem, v, Total(v)) == Splice(region, at, Packed(mem, v))
  {
  }

  /** One memcpy of `len` bytes out of block i extends the stored prefix by `len` bytes. */
  lemma StoredSegment(region: seq<byte>, at: nat, mem: seq<byte>, v: seq<IoVec>, i: nat, off: nat, len: nat)
    requires InMemory(v, |mem|) && i < |v| && off + len <= v[i].len && at + Total(v) <= |region|
    ensures Offset(v, i) + off + len <= Total(v)
    ensures Splice(Stored(region, at, mem, v, Offset(v, i) + off), at + Offset(v, i) + off,
                   mem[v[i].base + off..v[i].base + off + len])
         == Stored(region, at, mem, v, Offset(v, i) + off + len)
  {
    BlockAddresses(v, i, off, len);
    var n, a := Offset(v, i) + off, v[i].base + off;
    var r, want := Splice(Stored(region, at, mem, v, n), at + n, mem[a..a + len]), Stored(region, at, mem, v, n + len);
    assert forall k :: 0 <= k < |r| ==> r[k] == want[k];
  }

  // --------------------------------------------------------------------------------------------
  // Packed against the plain reading of a block list: the blocks one after the other.

  function Concatenated(mem: seq<byte>, v: seq<IoVec>, n: nat): seq<byte>
    requires InMemory(v, |mem|) && n <= |v|
  {
    if n == 0 then []
    else Concatenated(mem, v, n - 1) + mem[v[n - 1].base..v[n - 1].base + v[n - 1].len]
  }

  lemma PrefixExtends(s: seq<byte>, m: nat, n: nat, front: seq<byte>, block: seq<byte>)
    requires m <= n <= |s| && s[..m] == front && s[m..n] == block
    ensures s[..n] == front + block
  {
  }

  lemma PackedBlock(mem: seq<byte>, v: seq<IoVec>, i: nat)
    requires InMemory(v, |mem|) && i < |v|
    ensures Offset(v, i) <= Offset(v, i + 1) <= Total(v)
    ensures Packed(mem, v)[Offset(v, i)..Offset(v, i + 1)] == mem[v[i].base..v[i].base + v[i].len]
  {
    PackedSegment(mem, v, i, 0, v[i].len);
  }

  lemma {:induction false} PackedPrefix(mem: seq<byte>, v: seq<IoVec>, n: nat)
    requires InMemory(v, |mem|) && n <= |v|
    ensures Offset(v, n) <= Total(v)
    ensures Packed(mem, v)[..Offset(v, n)] == Concatenated(mem, v, n)
  {
    OffsetMonotone(v, n, |v|);
    if n == 0 {
    } else {
      PackedPrefix(mem, v, n - 1);
      PackedBlock(mem, v, n - 1);
      PrefixExtends(Packed(mem, v), Offset(v, n - 1), Offset(v, n), Concatenated(mem, v, n - 1),
                    mem[v[n - 1].base..v[n - 1].base + v[n - 1].len]);
    }
  }

  /** Packed is the exact concatenation of the blocks. */
  lemma PackedIsConcatenation(mem: seq<byte>, v: seq<IoVec>)
    requires InMemory(v, |mem|)
    ensures Packed(mem, v) == Concatenated(mem, v, |v|)
  {
    PackedPrefix(mem, v, |v|);
    assert Packed(mem, v)[..Total(v)] == Packed(mem, v);
  }

  // --------------------------------------------------------------------------------------------
  // Pack and unpack as mutual inverses.

  /** No two stream bytes share an address. */
  ghost predicate Disjoint(v: seq<IoVec>) {
    forall k, l :: 0 <= k < l < Total(v) ==> AddrOf(v, k) != AddrOf(v, l)
  }

  ghost predicate RoundTrips(mem: seq<byte>, v: seq<IoVec>)
    requires InMemory(v, |mem|)
  {
    forall data: seq<byte> :: |data| == Total(v) ==> Packed(Unpacked(mem, v, data, Total(v)), v) == data
  }

  lemma DisjointRoundTrips(mem: seq<byte>, v: seq<IoVec>, data: seq<byte>)
    requires InMemory(v, |mem|) && |data| == Total(v) && Disjoint(v)
    ensures Packed(Unpacked(mem, v, data, Total(v)), v) == data
  {
    forall k | 0 <= k < Total(v)
      ensures Packed(Unpacked(mem, v, data, Total(v)), v)[k] == data[k]
    {
      AddrInMemory(v, |mem|, k);
    }
  }

  lemma OverlapLosesBytes(mem: seq<byte>, v: seq<IoVec>, k: nat, l: nat) returns (data: seq<byte>)
    requires InMemory(v, |mem|) && k < l < Total(v) && AddrOf(v, k) == AddrOf(v, l)
    ensures |data| == Total(v) && Packed(Unpacked(mem, v, data, Total(v)), v) != data
  {
    data := seq(Total(v), i requires 0 <= i < Total(v) => if i == k then 0 as byte else 1);
    var back := Packed(Unpacked(mem, v, data, Total(v)), v);
    assert back[k] == back[l];
  }

  /** Storing a stream and reading it back returns every stream unchanged exactly when the blocks are disjoint. */
  lemma RoundTripIffDisjoint(mem: seq<byte>, v: seq<IoVec>)
    requires InMemory(v, |mem|)
    ensures RoundTrips(mem, v) <==> Disjoint(v)
  {
    if Disjoint(v) {
      forall data: seq<byte> | |data| == Total(v)
        ensures Packed(Unpacked(mem, v, data, Total(v)), v) == data
      {
        DisjointRoundTrips(mem, v, data);
      }
    } else {
      var k, l :| 0 <= k < l < Total(v) && AddrOf(v, k) == AddrOf(v, l);
      var _ := OverlapLosesBytes(mem, v, k, l);
    }
  }

  /** Reading the blocks and storing the same stream back changes nothing, disjoint or not. */
  lemma UnpackOfPackIsIdentity(mem: seq<byte>, v: seq<IoVec>, n: nat)
    requires InMemory(v, |mem|) && n <= Total(v)
    ensures Unpacked(mem, v, Packed(mem, v), n) == mem
  {
  }

  // --------------------------------------------------------------------------------------------
  // The lists the benchmark builds: n consecutive blocks of bs bytes from `base` on.

  function Uniform(base: nat, bs: nat, n: nat): (v: seq<IoVec>)
    ensures |v| == n
    ensures forall i :: 0 <= i < n ==> v[i] == IoVec(base + i * bs, bs)
  {
    seq(n, i requires 0 <= i < n => IoVec(base + i * bs, bs))
  }

  lemma {:induction false} UniformOffset(base: nat, bs: nat, n: nat, i: nat)
    requires i <= n
    ensures Offset(Uniform(base, bs, n), i) == i * bs
  {
    if i == 0 {
    } else {
      UniformOffset(base, bs, n, i - 1);
      assert i * bs == (i - 1) * bs + bs;
    }
  }

  /** A consecutive list is the identity from stream to buffer positions. */
  lemma UniformAddr(base: nat, bs: nat, n: nat, k: nat)
    requires k < Total(Uniform(base, bs, n))
    ensures AddrOf(Uniform(base, bs, n), k) == base + k
  {
    var v := Uniform(base, bs, n);
    UniformOffset(base, bs, n, Locate(v, n, k));
  }

  lemma UniformInMemory(base: nat, bs: nat, n: nat, size: nat)
    requires base + n * bs <= size
    ensures InMemory(Uniform(base, bs, n), size)
    ensures Total(Uniform(base, bs, n)) == n * bs
  {
    var v := Uniform(base, bs, n);
    UniformOffset(base, bs, n, n);
    forall i | 0 <= i < n
      ensures v[i].base + v[i].len <= size
    {
      OffsetMonotone(v, i + 1, n);
      UniformOffset(base, bs, n, i + 1);
      assert (i + 1) * bs == i * bs + bs;
    }
  }

  lemma ConsecutivePacked(mem: seq<byte>, v: seq<IoVec>, base: nat)
    requires InMemory(v, |mem|) && base + Total(v) <= |mem|
    requires forall k :: 0 <= k < Total(v) ==> AddrOf(v, k) == base + k
    ensures Packed(mem, v) == mem[base..base + Total(v)]
  {
    var p, q := Packed(mem, v), mem[base..base + Total(v)];
    assert forall k :: 0 <= k < |p| ==> p[k] == q[k];
  }

  lemma UniformConsecutive(base: nat, bs: nat, n: nat, size: nat)
    requires base + n * bs <= size
    ensures InMemory(Uniform(base, bs, n), size) && Total(Uniform(base, bs, n)) == n * bs
    ensures forall k :: 0 <= k < Total(Uniform(base, bs, n)) ==> AddrOf(Uniform(base, bs, n), k) == base + k
  {
    UniformInMemory(base, bs, n, size);
    forall k | 0 <= k < Total(Uniform(base, bs, n))
      ensures AddrOf(Uniform(base, bs, n), k) == base + k
    {
      UniformAddr(base, bs, n, k);
    }
  }

  /** On consecutive blocks, packing reads the buffer and unpacking overwrites it, byte for byte. */
  lemma UniformBuffer(mem: seq<byte>, base: nat, bs: nat, n: nat, data: seq<byte>)
    requires base + n * bs <= |mem| && |data| == n * bs
    ensures InMemory(Uniform(base, bs, n), |mem|) && Total(Uniform(base, bs, n)) == n * bs
    ensures Packed(mem, Uniform(base, bs, n)) == mem[base..base + n * bs]
    ensures Unpacked(mem, Uniform(base, bs, n), data, n * bs) == Splice(mem, base, data)
  {
    UniformConsecutive(base, bs, n, |mem|);
    ConsecutivePacked(mem, Uniform(base, bs, n), base);
    UnpackedRun(mem, Uniform(base, bs, n), data, 0, n * bs, base);
    assert data[0..n * bs] == data;
  }

  // --------------------------------------------------------------------------------------------

  /** memcpy between two distinct memories. */
  method Memcpy(dst: array<byte>, to: nat, src: array<byte>, from: nat, len: nat)
    requires dst != src && to + len <= dst.Length && from + len <= src.Length
    modifies dst
    ensures dst[..] == Splice(old(dst[..]), to, old(src[..])[from..from + len])
  {
    forall i | 0 <= i < len {
      dst[to + i] := src[from + i];
    }
  }
}
