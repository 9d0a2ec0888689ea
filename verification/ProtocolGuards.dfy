/** Both waiting conditions of the protocol are needed: dropping either one lets a receiver finish an
    iteration with bytes that are not that iteration's message. */
module ProtocolGuards {
  import opened Iovec
  import opened Script
  import opened Protocol

  /** The protocol with a root Gather that may return before the receivers have entered it. */
  ghost predicate EagerGatherStep(c: Config, s: State, s': State) {
    SenderMove(c, s, s') || exists r :: ReceiverStep(c, s, r, s')
  }

  ghost predicate EagerGatherRun(c: Config, run: seq<State>) {
    && |run| > 0 && Init(c, run[0])
    && forall i :: 0 <= i < |run| - 1 ==> EagerGatherStep(c, run[i], run[i + 1])
  }

  /** The protocol with a receiver's Bcast that may return before the root has entered it. */
  ghost predicate EagerBcastStep(c: Config, s: State, s': State) {
    SenderStep(c, s, s') || exists r :: ReceiverMove(c, s, r, s')
  }

  ghost predicate EagerBcastRun(c: Config, run: seq<State>) {
    && |run| > 0 && Init(c, run[0])
    && forall i :: 0 <= i < |run| - 1 ==> EagerBcastStep(c, run[i], run[i + 1])
  }

  /** Apart from returns out of a root Gather, the first variant takes no step that the protocol does not take; apart
      from returns out of a receiver's Bcast, neither does the second. */
  lemma OnlyTheGuardDiffers(c: Config, s: State, s': State)
    ensures EagerGatherStep(c, s, s') && s.sender.pc != InGather ==> Step(c, s, s')
    ensures EagerGatherStep(c, s, s') && !Step(c, s, s') ==> s' == s.(sender := Return(s.sender))
    ensures EagerBcastStep(c, s, s') && (forall r :: 0 <= r < |s.recvs| ==> s.recvs[r].pc != InBcast) ==> Step(c, s, s')
    ensures EagerBcastStep(c, s, s') && !Step(c, s, s') ==>
              exists r :: 0 <= r < |s.recvs| && s' == s.(recvs := s.recvs[r := Return(s.recvs[r])])
  {
    if EagerBcastStep(c, s, s') && !SenderStep(c, s, s') {
      var r: nat :| ReceiverMove(c, s, r, s');
      if s.recvs[r].pc != InBcast {
        assert ReceiverStep(c, s, r, s');
      }
    }
  }

  /** Receiver r has copied all of its iteration's message but its memory is not what it should be. */
  ghost predicate Corrupted(c: Config, s: State, r: nat)
    requires ValidConfig(c)
  {
    && r < |s.recvs| && r < |s.mems| && r < |c.riovs|
    && s.recvs[r].iter < c.iters && s.recvs[r].pos == c.n * c.d
    && s.mems[r] != MemAfter(c, r, s.recvs[r].iter + 1)
  }

  const ONE := [IoVec(0, 1)]
  const TINY := Config(1, 1, 2, ONE, [[1], [2]], [ONE], [[0]])

  lemma TinyFacts()
    ensures ValidConfig(TINY) && Total(ONE) == 1 && AddrOf(ONE, 0) == 0
    ensures Message(TINY, 0) == [1] && MemAfter(TINY, 0, 1) == [1]
  {
    assert Offset(ONE, 1) == Offset(ONE, 0) + 1;
    AddrInBlock(ONE, 0, 0);
    assert Message(TINY, 0)[0] == 1;
    assert MemAfter(TINY, 0, 1) == Unpacked(MemAfter(TINY, 0, 0), ONE, Message(TINY, 0), 1);
    UnpackedByte([0], ONE, Message(TINY, 0), 0);
    UnpackedNothing([0], ONE, Message(TINY, 0));
  }

  function At(p: Proc, cell: Cell, q: Proc, b: byte): State {
    State(p, [cell], [q], [[b]])
  }

  lemma GatherMustWait() returns (run: seq<State>)
    ensures ValidConfig(TINY) && EagerGatherRun(TINY, run)
    ensures Corrupted(TINY, run[|run| - 1], 0)
    ensures run[|run| - 1].recvs[0].iter == 0 && run[|run| - 1].recvs[0].pos == 1
    ensures run[|run| - 1].mems[0] == [2] && Message(TINY, 0) == [1]
  {
    TinyFacts();
    var l1, l2 := [Bcast], [Bcast, Gather];
    var q := START;
    var next := Proc(1, 0, 1, Run, l2);
    run := [
      At(START, Cell(0, -1), q, 0),
      At(Proc(0, 0, 1, Run, []), Cell(1, 0), q, 0),
      At(Proc(0, 0, 1, InBcast, l1), Cell(1, 0), q, 0),
      At(Proc(0, 1, 1, Run, l1), Cell(1, 0), q, 0),
      At(Proc(0, 1, 1, InGather, l2), Cell(1, 0), q, 0),
      At(Proc(1, 0, 0, Run, l2), Cell(1, 0), q, 0),
      At(next, Cell(2, 1), q, 0),
      At(next, Cell(2, 1), Proc(0, 0, 0, InBcast, l1), 0),
      At(next, Cell(2, 1), Proc(0, 1, 0, Run, l1), 0),
      At(next, Cell(2, 1), Proc(0, 1, 1, Run, l1), 2)
    ];
    assert SenderMove(TINY, run[0], run[1]);
    assert SenderMove(TINY, run[1], run[2]);
    assert SenderMove(TINY, run[2], run[3]);
    assert SenderMove(TINY, run[3], run[4]);
    assert SenderMove(TINY, run[4], run[5]);
    assert SenderMove(TINY, run[5], run[6]);
    assert ReceiverStep(TINY, run[6], 0, run[7]);
    assert ReceiverStep(TINY, run[7], 0, run[8]);
    assert run[9].mems[0] == run[8].mems[0][0 := 2];
    assert ReceiverStep(TINY, run[8], 0, run[9]);
  }

  lemma BcastMustWait() returns (run: seq<State>)
    ensures ValidConfig(TINY) && EagerBcastRun(TINY, run)
    ensures Corrupted(TINY, run[|run| - 1], 0)
    ensures run[|run| - 1].recvs[0].iter == 0 && run[|run| - 1].recvs[0].pos == 1
    ensures run[|run| - 1].mems[0] == [0] && Message(TINY, 0) == [1]
  {
    TinyFacts();
    run := [
      At(START, Cell(0, -1), START, 0),
      At(START, Cell(0, -1), Proc(0, 0, 0, InBcast, [Bcast]), 0),
      At(START, Cell(0, -1), Proc(0, 1, 0, Run, [Bcast]), 0),
      At(START, Cell(0, -1), Proc(0, 1, 1, Run, [Bcast]), 0)
    ];
    assert START.log + [Bcast] == [Bcast];
    assert ReceiverMove(TINY, run[0], 0, run[1]);
    assert ReceiverMove(TINY, run[1], 0, run[2]);
    assert run[3].mems[0] == run[2].mems[0][0 := 0];
    assert ReceiverMove(TINY, run[2], 0, run[3]);
  }
}
