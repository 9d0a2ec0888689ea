/** The one memcpy of each copying loop, stated on stream positions. */
module StreamCopy {
  import opened Iovec

  /** memcpy(region + to, mem + from, len), where `from` is byte `off` of block i and the region holds the
      first n stream bytes from position `at` on. */
  method StoreSegment(region: array<byte>, to: nat, mem: array<byte>, from: nat, len: nat,
                      ghost at: nat, ghost v: seq<IoVec>, ghost i: nat, ghost off: nat, ghost before: seq<byte>)
    requires region != mem && InMemory(v, mem.Length) && |before| == region.Length && at + Total(v) <= |before|
    requires i < |v| && off + len <= v[i].len && from == v[i].base + off
    requires to == at + Offset(v, i) + off <= at + Total(v)
    requires region[..] == Stored(before, at, mem[..], v, Offset(v, i) + off)
    modifies region
    ensures Offset(v, i) + off + len <= Total(v)
    ensures region[..] == Stored(before, at, mem[..], v, Offset(v, i) + off + len)
  {
    ghost var source := mem[..];
    StoredSegment(before, at, source, v, i, off, len);
    Memcpy(region, to, mem, from, len);
    assert mem[..] == source;
  }

  /** The region holds the bytes of msg from position lo up to hi. */
  ghost predicate Holds(region: seq<byte>, msg: seq<byte>, lo: nat, hi: nat) {
    |msg| <= |region| && forall k :: lo <= k < hi && k < |msg| ==> region[k] == msg[k]
  }

  lemma HoldsPart(region: seq<byte>, msg: seq<byte>, lo: nat, hi: nat, lo': nat, hi': nat)
    requires Holds(region, msg, lo, hi) && lo <= lo' && hi' <= hi
    ensures Holds(region, msg, lo', hi')
  {
  }

  /** memcpy(mem + to, region + from, len), where `to` is byte `off` of block i, the list's first `from` bytes
      are in place, and the region holds the next ones. */
  method LoadSegment(mem: array<byte>, to: nat, region: array<byte>, from: nat, len: nat, ghost msg: seq<byte>,
                     ghost v: seq<IoVec>, ghost i: nat, ghost off: nat, ghost before: seq<byte>)
    requires region != mem && InMemory(v, mem.Length) && |before| == mem.Length && Total(v) <= region.Length
    requires i < |v| && off + len <= v[i].len && to == v[i].base + off
    requires from == Offset(v, i) + off <= Total(v) <= |msg| && Holds(region[..], msg, from, from + len)
    requires mem[..] == Unpacked(before, v, msg, from)
    modifies mem
    ensures from + len <= Total(v)
    ensures mem[..] == Unpacked(before, v, msg, from + len)
  {
    ghost var stream := region[..];
    BlockAddresses(v, i, off, len);
    assert v[i].base + v[i].len <= mem.Length;
    UnpackedRun(before, v, msg, from, len, to);
    assert stream[from..from + len] == msg[from..from + len];
    Memcpy(mem, to, region, from, len);
  }
}
