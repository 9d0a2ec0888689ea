/** The chunk protocol of benchmark_shmem_pip as a transition system: one sender, any number of receivers,
    any number of iterations, any interleaving of single byte copies and collective entries and returns.

    The collectives are as weak as the MPI 3.1 standard allows (sections 5.4, 5.5 and 5.13): the k-th collective
    call of each process belongs to one operation; a receiver's Bcast returns only after the root has entered
    the same Bcast; the root's Gather returns only after every process has entered the same Gather; every
    other call may return at once. With n = 1 this is the protocol of the plain benchmark_shmem. */
module Protocol {
  import opened Iovec
  import opened Arithmetic
  import opened Script

  /** n chunks of d bytes per iteration. src[j] is the sender's memory in iteration j (it may change from
      one iteration to the next); riovs[r] and init[r] are receiver r's block list and initial memory. */
  datatype Config = Config(n: nat, d: nat, iters: nat, siov: seq<IoVec>, src: seq<seq<byte>>,
                           riovs: seq<seq<IoVec>>, init: seq<seq<byte>>)

  ghost predicate ValidConfig(c: Config) {
    && c.n > 0 && c.d > 0
    && Total(c.siov) == c.n * c.d
    && |c.src| == c.iters && (forall j :: 0 <= j < c.iters ==> InMemory(c.siov, |c.src[j]|))
    && |c.riovs| == |c.init|
    && (forall r :: 0 <= r < |c.riovs| ==> Total(c.riovs[r]) == c.n * c.d && InMemory(c.riovs[r], |c.init[r]|))
  }

  /** Where a process is: outside the collectives, or entered into one and not returned. */
  datatype PC = Run | InBcast | InGather

  /** iter iterations are complete; in this one, `chunk` Bcasts have returned and `pos` bytes are copied.
      The log lists the collectives entered since the start. */
  datatype Proc = Proc(iter: nat, chunk: nat, pos: nat, pc: PC, log: seq<Action>)

  /** A byte of the shared region, tagged with the iteration in which the sender stored it (-1 for none). */
  datatype Cell = Cell(val: byte, iter: int)

  datatype State = State(sender: Proc, shm: seq<Cell>, recvs: seq<Proc>, mems: seq<seq<byte>>)

  /** What a process outside the collectives does next. The sender fills a chunk, then announces it. */
  function SenderAct(c: Config, p: Proc): Action {
    if p.chunk < c.n && p.pos < (p.chunk + 1) * c.d then Copy(p.pos)
    else if p.chunk < c.n then Bcast
    else Gather
  }

  /** A receiver waits for an announcement, then drains the chunk. */
  function ReceiverAct(c: Config, p: Proc): Action {
    if p.pos < p.chunk * c.d then Copy(p.pos)
    else if p.chunk < c.n then Bcast
    else Gather
  }

  function Enter(p: Proc, a: Action): Proc {
    match a
    case Copy(_) => p.(pos := p.pos + 1)
    case Bcast => p.(pc := InBcast, log := p.log + [Bcast])
    case Gather => p.(pc := InGather, log := p.log + [Gather])
  }

  function Return(p: Proc): Proc {
    if p.pc == InBcast then p.(pc := Run, chunk := p.chunk + 1)
    else Proc(p.iter + 1, 0, 0, Run, p.log)
  }

  ghost predicate SenderMayReturn(s: State) {
    s.sender.pc == InGather ==> forall r :: 0 <= r < |s.recvs| ==> |s.sender.log| <= |s.recvs[r].log|
  }

  ghost predicate ReceiverMayReturn(s: State, p: Proc) {
    p.pc == InBcast ==> |p.log| <= |s.sender.log|
  }

  /** A sender move, without the condition on returning from a collective. */
  ghost predicate SenderMove(c: Config, s: State, s': State) {
    var p := s.sender;
    && p.iter < c.iters && s'.recvs == s.recvs && s'.mems == s.mems
    && if p.pc != Run then s' == s.(sender := Return(p))
       else
         && s'.sender == Enter(p, SenderAct(c, p))
         && if SenderAct(c, p) != Copy(p.pos) then s'.shm == s.shm
            else
              && p.pos < |s.shm| && p.pos < Total(c.siov) && p.iter < |c.src|
              && AddrOf(c.siov, p.pos) < |c.src[p.iter]|
              && s'.shm == s.shm[p.pos := Cell(c.src[p.iter][AddrOf(c.siov, p.pos)], p.iter)]
  }

  ghost predicate ReceiverMove(c: Config, s: State, r: nat, s': State) {
    && r < |s.recvs| && r < |s.mems| && r < |c.riovs|
    && var p := s.recvs[r];
    && p.iter < c.iters && s'.sender == s.sender && s'.shm == s.shm
    && if p.pc != Run then s'.recvs == s.recvs[r := Return(p)] && s'.mems == s.mems
       else
         && s'.recvs == s.recvs[r := Enter(p, ReceiverAct(c, p))]
         && if ReceiverAct(c, p) != Copy(p.pos) then s'.mems == s.mems
            else
              && p.pos < |s.shm| && p.pos < Total(c.riovs[r])
              && AddrOf(c.riovs[r], p.pos) < |s.mems[r]|
              && s'.mems == s.mems[r := s.mems[r][AddrOf(c.riovs[r], p.pos) := s.shm[p.pos].val]]
  }

  ghost predicate SenderStep(c: Config, s: State, s': State) {
    SenderMayReturn(s) && SenderMove(c, s, s')
  }

  ghost predicate ReceiverStep(c: Config, s: State, r: nat, s': State) {
    ReceiverMove(c, s, r, s') && ReceiverMayReturn(s, s.recvs[r])
  }

  ghost predicate Step(c: Config, s: State, s': State) {
    SenderStep(c, s, s') || exists r :: ReceiverStep(c, s, r, s')
  }

  const START := Proc(0, 0, 0, Run, [])

  ghost predicate Init(c: Config, s: State) {
    && s.sender == START
    && |s.shm| == c.n * c.d && (forall k :: 0 <= k < |s.shm| ==> s.shm[k].iter == -1)
    && |s.recvs| == |c.riovs| && (forall r :: 0 <= r < |s.recvs| ==> s.recvs[r] == START)
    && s.mems == c.init
  }

  ghost predicate IsRun(c: Config, run: seq<State>) {
    && |run| > 0 && Init(c, run[0])
    && forall i :: 0 <= i < |run| - 1 ==> Step(c, run[i], run[i + 1])
  }

  /** Every process has completed all iterations. */
  ghost predicate Final(c: Config, s: State) {
    s.sender.iter == c.iters && forall r :: 0 <= r < |s.recvs| ==> s.recvs[r].iter == c.iters
  }

  // --------------------------------------------------------------------------------------------
  // What the run should compute, without any interleaving.

  function Message(c: Config, j: nat): (m: seq<byte>)
    requires ValidConfig(c) && j < c.iters
    ensures |m| == c.n * c.d
  {
    Packed(c.src[j], c.siov)
  }

  /** Receiver r's memory after j iterations run one after the other. */
  function MemAfter(c: Config, r: nat, j: nat): (m: seq<byte>)
    requires ValidConfig(c) && r < |c.riovs| && j <= c.iters
    ensures |m| == |c.init[r]|
  {
    if j == 0 then c.init[r]
    else Unpacked(MemAfter(c, r, j - 1), c.riovs[r], Message(c, j - 1), c.n * c.d)
  }

  /** ... and with the first pos bytes of the next iteration's message. */
  function MemAt(c: Config, r: nat, j: nat, pos: nat): (m: seq<byte>)
    requires ValidConfig(c) && r < |c.riovs| && j <= c.iters && pos <= c.n * c.d
  {
    if j == c.iters then MemAfter(c, r, j)
    else Unpacked(MemAfter(c, r, j), c.riovs[r], Message(c, j), pos)
  }

  // --------------------------------------------------------------------------------------------
  // The order of collectives.

  function IterCalls(n: nat): seq<Action> {
    seq(n + 1, i => if i < n then Bcast else Gather)
  }

  function CallLog(n: nat, iter: nat, b: nat): (l: seq<Action>)
    requires b <= n + 1
    ensures |l| == iter * (n + 1) + b
  {
    if iter == 0 then IterCalls(n)[..b]
    else MulStep(iter - 1, n + 1); IterCalls(n) + CallLog(n, iter - 1, b)
  }

  lemma {:induction false} CallLogNext(n: nat, iter: nat, b: nat)
    requires b <= n
    ensures CallLog(n, iter, b) + [if b < n then Bcast else Gather] == CallLog(n, iter, b + 1)
  {
    if iter == 0 {
    } else {
      CallLogNext(n, iter - 1, b);
    }
  }

  lemma {:induction false} CallLogWrap(n: nat, iter: nat)
    ensures CallLog(n, iter, n + 1) == CallLog(n, iter + 1, 0)
  {
    if iter == 0 {
    } else {
      CallLogWrap(n, iter - 1);
    }
  }

  lemma {:induction false} CallLogPrefix(n: nat, j: nat, b: nat, j': nat, b': nat)
    requires b <= n + 1 && b' <= n + 1 && |CallLog(n, j, b)| <= |CallLog(n, j', b')|
    ensures CallLog(n, j, b) <= CallLog(n, j', b')
  {
    if j > 0 && j' > 0 {
      MulStep(j - 1, n + 1);
      MulStep(j' - 1, n + 1);
      CallLogPrefix(n, j - 1, b, j' - 1, b');
    } else if j > 0 {
      MulStep(j - 1, n + 1);
      assert (j - 1) * (n + 1) + b == 0;
      assert CallLog(n, j - 1, b) == [];
    }
  }

  lemma TwoAhead(m: nat, j': nat, j: nat)
    ensures j' + 2 <= j ==> j * m >= j' * m + m + m
  {
    if j' + 2 <= j {
      MulMonotone(j' + 2, j, m);
      MulStep(j' + 1, m);
      MulStep(j', m);
    }
  }

  /** Longer logs belong to later calls. */
  lemma LogOrder(n: nat, j: nat, b: nat, j': nat, b': nat)
    requires b <= n + 1 && b' <= n + 1 && |CallLog(n, j, b)| <= |CallLog(n, j', b')|
    ensures j < j' || (j == j' && b <= b') || (j == j' + 1 && b == 0 && b' == n + 1)
  {
    if j > j' {
      MulStep(j', n + 1);
      MulMonotone(j' + 1, j, n + 1);
      TwoAhead(n + 1, j', j);
    }
  }

  // --------------------------------------------------------------------------------------------
  // Invariants.

  /** Bcasts entered in this iteration. */
  function Entered(p: Proc): nat {
    p.chunk + if p.pc == InBcast then 1 else 0
  }

  /** Collectives entered in this iteration. */
  function Calls(p: Proc): nat {
    p.chunk + if p.pc == Run then 0 else 1
  }

  ghost predicate Shared(c: Config, p: Proc) {
    && p.iter <= c.iters && p.chunk <= c.n && p.pos <= c.n * c.d
    && (p.iter == c.iters ==> p.chunk == 0 && p.pos == 0 && p.pc == Run)
    && (p.pc == InBcast ==> p.chunk < c.n)
    && (p.pc == InGather ==> p.chunk == c.n && p.pos == c.n * c.d)
    && Calls(p) <= c.n + 1 && p.log == CallLog(c.n, p.iter, Calls(p))
  }

  ghost predicate SenderInv(c: Config, p: Proc) {
    && Shared(c, p)
    && p.chunk * c.d <= p.pos <= (p.chunk + 1) * c.d
    && (p.pc == InBcast ==> p.pos == (p.chunk + 1) * c.d)
  }

  ghost predicate ReceiverInv(c: Config, p: Proc) {
    && Shared(c, p)
    && p.pos <= p.chunk * c.d <= p.pos + c.d
    && (p.pc == InBcast ==> p.pos == p.chunk * c.d)
  }

  /** How far a receiver can be from the sender: in the same iteration and behind the announcements;
      or done with it early and waiting for the next; or still inside the last iteration's Gather. */
  ghost predicate InStep(c: Config, p: Proc, q: Proc) {
    || (q.iter == p.iter && q.chunk <= Entered(p))
    || (q.iter == p.iter + 1 && q.chunk == 0 && Entered(p) == c.n)
    || (q.iter + 1 == p.iter && q.pc == InGather)
  }

  ghost predicate ShmInv(c: Config, s: State)
    requires ValidConfig(c) && s.sender.iter <= c.iters
  {
    && |s.shm| == c.n * c.d && s.sender.pos <= |s.shm|
    && (s.sender.iter < c.iters ==>
          forall k :: 0 <= k < s.sender.pos ==> s.shm[k] == Cell(Message(c, s.sender.iter)[k], s.sender.iter))
  }

  ghost predicate Inv(c: Config, s: State)
    requires ValidConfig(c)
  {
    && SenderInv(c, s.sender)
    && |s.recvs| == |s.mems| == |c.riovs|
    && (forall r :: 0 <= r < |s.recvs| ==> ReceiverInv(c, s.recvs[r]))
    && (forall r :: 0 <= r < |s.recvs| ==> InStep(c, s.sender, s.recvs[r]))
    && ShmInv(c, s)
    && (forall r :: 0 <= r < |s.recvs| ==> s.mems[r] == MemAt(c, r, s.recvs[r].iter, s.recvs[r].pos))
  }

  // --------------------------------------------------------------------------------------------
  // Preservation, one concern at a time.

  lemma ChunkBounds(c: Config, chunk: nat)
    requires chunk <= c.n
    ensures chunk * c.d <= c.n * c.d
    ensures (chunk + 1) * c.d == chunk * c.d + c.d
    ensures chunk < c.n ==> chunk * c.d + c.d <= c.n * c.d
  {
    MulMonotone(chunk, c.n, c.d);
    MulStep(chunk, c.d);
    if chunk < c.n {
      MulMonotone(chunk + 1, c.n, c.d);
    }
  }

  lemma SenderLocal(c: Config, p: Proc)
    requires ValidConfig(c) && SenderInv(c, p) && p.iter < c.iters
    ensures SenderInv(c, if p.pc == Run then Enter(p, SenderAct(c, p)) else Return(p))
    ensures p.pc == Run && SenderAct(c, p).Copy? ==> p.pos < c.n * c.d
  {
    ChunkBounds(c, p.chunk);
    if p.pc == Run {
      if p.chunk < c.n && p.pos < (p.chunk + 1) * c.d {
      } else {
        CallLogNext(c.n, p.iter, p.chunk);
      }
    } else if p.pc == InGather {
      CallLogWrap(c.n, p.iter);
    } else {
      ChunkBounds(c, p.chunk + 1);
    }
  }

  lemma ReceiverLocal(c: Config, p: Proc)
    requires ValidConfig(c) && ReceiverInv(c, p) && p.iter < c.iters
    ensures ReceiverInv(c, if p.pc == Run then Enter(p, ReceiverAct(c, p)) else Return(p))
    ensures p.pc == Run && ReceiverAct(c, p).Copy? ==> p.pos < c.n * c.d
  {
    ChunkBounds(c, p.chunk);
    if p.pc == Run {
      if p.pos < p.chunk * c.d {
      } else {
        CallLogNext(c.n, p.iter, p.chunk);
      }
    } else if p.pc == InGather {
      CallLogWrap(c.n, p.iter);
    } else {
      ChunkBounds(c, p.chunk + 1);
    }
  }

  lemma InStepAfterSender(c: Config, p: Proc, q: Proc)
    requires ValidConfig(c) && SenderInv(c, p) && ReceiverInv(c, q) && InStep(c, p, q) && p.iter < c.iters
    requires p.pc == InGather ==> |p.log| <= |q.log|
    ensures InStep(c, if p.pc == Run then Enter(p, SenderAct(c, p)) else Return(p), q)
  {
    if p.pc == InGather {
      LogOrder(c.n, p.iter, Calls(p), q.iter, Calls(q));
    }
  }

  lemma InStepAfterReceiver(c: Config, p: Proc, q: Proc)
    requires ValidConfig(c) && SenderInv(c, p) && ReceiverInv(c, q) && InStep(c, p, q) && q.iter < c.iters
    requires q.pc == InBcast ==> |q.log| <= |p.log|
    ensures InStep(c, p, if q.pc == Run then Enter(q, ReceiverAct(c, q)) else Return(q))
  {
    if q.pc == InBcast {
      LogOrder(c.n, q.iter, Calls(q), p.iter, Calls(p));
    }
  }

  /** A receiver with bytes left to drain is in the sender's iteration, behind the sender. */
  lemma DrainBehindSender(c: Config, p: Proc, q: Proc)
    requires ValidConfig(c) && SenderInv(c, p) && ReceiverInv(c, q) && InStep(c, p, q)
    requires q.pos < q.chunk * c.d
    ensures q.iter == p.iter && q.chunk * c.d <= p.pos
  {
    ChunkBounds(c, p.chunk);
    MulMonotone(q.chunk, Entered(p), c.d);
  }

  lemma SenderStepInv(c: Config, s: State, s': State)
    requires ValidConfig(c) && Inv(c, s) && SenderStep(c, s, s')
    ensures Inv(c, s')
  {
    SenderLocal(c, s.sender);
    forall r | 0 <= r < |s.recvs|
      ensures InStep(c, s'.sender, s'.recvs[r])
    {
      InStepAfterSender(c, s.sender, s.recvs[r]);
    }
  }

  /** The byte a receiver copies is the next byte of its message. */
  lemma ReceiverCopies(c: Config, s: State, r: nat, q: Proc)
    requires ValidConfig(c) && Inv(c, s) && r < |s.recvs| && q == s.recvs[r] && q.pos < q.chunk * c.d
    ensures q.pos < c.n * c.d == |s.shm| && q.iter < c.iters && AddrOf(c.riovs[r], q.pos) < |s.mems[r]|
    ensures s.mems[r][AddrOf(c.riovs[r], q.pos) := s.shm[q.pos].val] == MemAt(c, r, q.iter, q.pos + 1)
  {
    DrainBehindSender(c, s.sender, q);
    AddrInMemory(c.riovs[r], |c.init[r]|, q.pos);
    UnpackedByte(MemAfter(c, r, q.iter), c.riovs[r], Message(c, q.iter), q.pos);
  }

  lemma MemAtStart(c: Config, r: nat, j: nat)
    requires ValidConfig(c) && r < |c.riovs| && j <= c.iters
    ensures MemAt(c, r, j, 0) == MemAfter(c, r, j)
  {
    if j < c.iters {
      UnpackedNothing(MemAfter(c, r, j), c.riovs[r], Message(c, j));
    }
  }

  /** One receiver step keeps that receiver's memory equal to the uninterleaved computation. */
  lemma ReceiverMemory(c: Config, s: State, r: nat, s': State)
    requires ValidConfig(c) && Inv(c, s) && ReceiverStep(c, s, r, s')
    requires ReceiverInv(c, s'.recvs[r])
    ensures |s'.mems| == |s.mems| && s'.mems[r] == MemAt(c, r, s'.recvs[r].iter, s'.recvs[r].pos)
  {
    var q := s.recvs[r];
    if q.pc == InGather {
      MemAtStart(c, r, q.iter + 1);
    } else if q.pc == Run && ReceiverAct(c, q).Copy? {
      ReceiverCopies(c, s, r, q);
    }
  }

  lemma ReceiverStepInv(c: Config, s: State, r: nat, s': State)
    requires ValidConfig(c) && Inv(c, s) && ReceiverStep(c, s, r, s')
    ensures Inv(c, s')
  {
    ReceiverLocal(c, s.recvs[r]);
    InStepAfterReceiver(c, s.sender, s.recvs[r]);
    ReceiverMemory(c, s, r, s');
  }

  lemma InitInv(c: Config, s: State)
    requires ValidConfig(c) && Init(c, s)
    ensures Inv(c, s)
  {
    forall r | 0 <= r < |s.recvs|
      ensures s.mems[r] == MemAt(c, r, 0, 0)
    {
      MemAtStart(c, r, 0);
    }
  }

  /** The invariant holds in every reachable state. */
  lemma {:induction false} RunInv(c: Config, run: seq<State>, i: nat)
    requires ValidConfig(c) && IsRun(c, run) && i < |run|
    ensures Inv(c, run[i])
  {
    if i == 0 {
      InitInv(c, run[0]);
    } else {
      RunInv(c, run, i - 1);
      var s, s' := run[i - 1], run[i - 1 + 1];
      assert Step(c, s, s');
      if SenderStep(c, s, s') {
        SenderStepInv(c, s, s');
      } else {
        var r :| ReceiverStep(c, s, r, s');
        ReceiverStepInv(c, s, r, s');
      }
    }
  }
}
