/** Which runs the chunk protocol has: every region and every list can start one, a process is held up by nothing
    but the two waiting conditions, and both sides can run ahead of each other as far as the collectives allow. */
module ProtocolRuns {
  import opened Iovec
  import opened Arithmetic
  import opened Script
  import opened Protocol
  import opened ProtocolTheorems

  /** Whatever the shared region holds at first, there is a run, of one state, that starts with it. */
  lemma RunsStart(c: Config, region: seq<byte>) returns (run: seq<State>)
    requires ValidConfig(c) && |region| == c.n * c.d
    ensures IsRun(c, run) && |run| == 1 && run[0].mems == c.init
    ensures run[0].sender == START && |run[0].recvs| == |c.riovs|
    ensures forall r :: 0 <= r < |run[0].recvs| ==> run[0].recvs[r] == START
    ensures |run[0].shm| == |region| && forall k :: 0 <= k < |region| ==> run[0].shm[k].val == region[k]
  {
    run := [State(START, seq(|region|, k requires 0 <= k < |region| => Cell(region[k], -1)),
                  seq(|c.riovs|, _ => START), c.init)];
  }

  /** So every configuration has a run in which all processes finish. */
  lemma CompleteRunsExist(c: Config, region: seq<byte>) returns (run: seq<State>)
    requires ValidConfig(c) && |region| == c.n * c.d
    ensures IsRun(c, run) && Final(c, run[|run| - 1])
  {
    var first := RunsStart(c, region);
    run := RunsComplete(c, first);
  }

  // --------------------------------------------------------------------------------------------
  // What holds a process up.

  lemma SenderStepIs(c: Config, s: State, s': State)
    requires SenderStep(c, s, s')
    ensures s.sender.iter < c.iters
    ensures s.sender.pc == InGather ==> forall r :: 0 <= r < |s.recvs| ==> |s.sender.log| <= |s.recvs[r].log|
  {
  }

  /** In a reachable state an unfinished sender is held up exactly if it is in a Gather that some receiver has not
      entered. In particular its Bcasts wait for nobody. */
  lemma SenderWaitsOnlyInGather(c: Config, run: seq<State>, i: nat)
    requires ValidConfig(c) && IsRun(c, run) && i < |run| && run[i].sender.iter < c.iters
    ensures (exists s' :: SenderStep(c, run[i], s'))
       <==> !(run[i].sender.pc == InGather
              && exists r :: 0 <= r < |run[i].recvs| && |run[i].recvs[r].log| < |run[i].sender.log|)
  {
    var s := run[i];
    RunInv(c, run, i);
    if s.sender.pc == InGather && exists r :: 0 <= r < |s.recvs| && |s.recvs[r].log| < |s.sender.log| {
      forall s' | SenderStep(c, s, s')
        ensures false
      {
        SenderStepIs(c, s, s');
      }
    } else {
      var s' := SenderCanMove(c, s);
    }
  }

  /** A receiver is held up exactly if it is in a Bcast that the sender has not entered. In particular its Gathers
      wait for nobody. */
  lemma ReceiverWaitsOnlyInBcast(c: Config, run: seq<State>, i: nat, r: nat)
    requires ValidConfig(c) && IsRun(c, run) && i < |run| && r < |run[i].recvs| && run[i].recvs[r].iter < c.iters
    ensures (exists s' :: ReceiverStep(c, run[i], r, s'))
       <==> !(run[i].recvs[r].pc == InBcast && |run[i].sender.log| < |run[i].recvs[r].log|)
  {
    RunInv(c, run, i);
    if run[i].recvs[r].pc == InBcast && |run[i].sender.log| < |run[i].recvs[r].log| {
    } else {
      var s' := ReceiverCanMove(c, run[i], r);
    }
  }

  // --------------------------------------------------------------------------------------------
  // Running ahead.

  /** The sender takes one step, alone. */
  lemma SenderSteps(c: Config, run: seq<State>) returns (longer: seq<State>)
    requires ValidConfig(c) && IsRun(c, run)
    requires run[|run| - 1].sender.iter < c.iters && run[|run| - 1].sender.pc != InGather
    ensures IsRun(c, longer) && |longer| == |run| + 1 && run <= longer
    ensures var s, s' := run[|run| - 1], longer[|run|];
            s'.recvs == s.recvs && s'.mems == s.mems
            && s'.sender == if s.sender.pc == Run then Enter(s.sender, SenderAct(c, s.sender)) else Return(s.sender)
  {
    RunInv(c, run, |run| - 1);
    var s' := SenderCanMove(c, run[|run| - 1]);
    RunExtends(c, run, s');
    longer := run + [s'];
  }

  /** Receiver r takes one step, alone. */
  lemma ReceiverSteps(c: Config, run: seq<State>, r: nat) returns (longer: seq<State>)
    requires ValidConfig(c) && IsRun(c, run) && r < |run[|run| - 1].recvs|
    requires run[|run| - 1].recvs[r].iter < c.iters && ReceiverMayReturn(run[|run| - 1], run[|run| - 1].recvs[r])
    ensures IsRun(c, longer) && |longer| == |run| + 1 && run <= longer
    ensures var s, s' := run[|run| - 1], longer[|run|]; var q := s.recvs[r];
            s'.sender == s.sender && s'.shm == s.shm
            && s'.recvs == s.recvs[r := if q.pc == Run then Enter(q, ReceiverAct(c, q)) else Return(q)]
  {
    RunInv(c, run, |run| - 1);
    var s' := ReceiverCanMove(c, run[|run| - 1], r);
    RunExtends(c, run, s');
    longer := run + [s'];
  }

  /** What is left of a process's iteration. */
  function Left(c: Config, p: Proc): int {
    c.n * c.d + 2 * (c.n + 1) - p.pos - 2 * p.chunk - if p.pc == Run then 0 else 1
  }

  lemma LeftIsPositive(c: Config, p: Proc)
    requires ValidConfig(c) && Shared(c, p)
    ensures Left(c, p) > 0
  {
  }

  /** From every reachable state in the middle of an iteration the sender can store all the rest of its message and
      enter the Gather, although no receiver moves. */
  lemma {:induction false} SenderRunsAhead(c: Config, run: seq<State>) returns (longer: seq<State>)
    requires ValidConfig(c) && IsRun(c, run) && run[|run| - 1].sender.iter < c.iters
    ensures IsRun(c, longer) && run <= longer
    ensures var s, s' := run[|run| - 1], longer[|longer| - 1];
            && s'.recvs == s.recvs && s'.mems == s.mems
            && s'.sender.iter == s.sender.iter && s'.sender.pc == InGather
            && s'.sender.chunk == c.n && s'.sender.pos == c.n * c.d == |s'.shm|
            && forall k :: 0 <= k < c.n * c.d ==> s'.shm[k] == Cell(Message(c, s.sender.iter)[k], s.sender.iter)
    decreases Left(c, run[|run| - 1].sender)
  {
    var s := run[|run| - 1];
    RunInv(c, run, |run| - 1);
    if s.sender.pc == InGather {
      longer := run;
    } else {
      var next := SenderSteps(c, run);
      RunInv(c, next, |run|);
      LeftIsPositive(c, next[|run|].sender);
      longer := SenderRunsAhead(c, next);
    }
  }

  /** ... and it can do so in single announcements: it can stop inside the last Bcast. */
  lemma {:induction false} SenderReachesLastBcast(c: Config, run: seq<State>) returns (longer: seq<State>)
    requires ValidConfig(c) && IsRun(c, run)
    requires run[|run| - 1].sender.iter < c.iters && run[|run| - 1].sender.chunk < c.n
    ensures IsRun(c, longer) && run <= longer
    ensures var s, s' := run[|run| - 1], longer[|longer| - 1];
            && s'.recvs == s.recvs && s'.mems == s.mems
            && s'.sender.iter == s.sender.iter && s'.sender.pc == InBcast && s'.sender.chunk == c.n - 1
    decreases Left(c, run[|run| - 1].sender)
  {
    var s := run[|run| - 1];
    RunInv(c, run, |run| - 1);
    if s.sender.pc == InBcast && s.sender.chunk == c.n - 1 {
      longer := run;
    } else {
      var next := SenderSteps(c, run);
      RunInv(c, next, |run|);
      LeftIsPositive(c, next[|run|].sender);
      longer := SenderReachesLastBcast(c, next);
    }
  }

  /** When all chunks of an iteration are announced, no Bcast of a receiver in it has to wait. */
  lemma NoBcastWaits(c: Config, s: State, r: nat)
    requires ValidConfig(c) && Inv(c, s) && r < |s.recvs|
    requires s.recvs[r].iter == s.sender.iter && Entered(s.sender) == c.n
    ensures ReceiverMayReturn(s, s.recvs[r])
  {
  }

  /** When the sender has entered the last Bcast of an iteration, a receiver can unpack the rest of it and leave its
      Gather, although the sender does not move and so has not entered that Gather. */
  lemma {:induction false} ReceiverRunsAhead(c: Config, run: seq<State>, r: nat) returns (longer: seq<State>)
    requires ValidConfig(c) && IsRun(c, run) && r < |run[|run| - 1].recvs|
    requires run[|run| - 1].recvs[r].iter == run[|run| - 1].sender.iter < c.iters
    requires Entered(run[|run| - 1].sender) == c.n
    ensures IsRun(c, longer) && run <= longer
    ensures var s, s' := run[|run| - 1], longer[|longer| - 1];
            && s'.sender == s.sender && s'.shm == s.shm
            && |s'.recvs| == |s.recvs| && s'.recvs == s.recvs[r := s'.recvs[r]] && s'.recvs[r].iter == s.recvs[r].iter + 1
    decreases Left(c, run[|run| - 1].recvs[r])
  {
    var s := run[|run| - 1];
    RunInv(c, run, |run| - 1);
    NoBcastWaits(c, s, r);
    var next := ReceiverSteps(c, run, r);
    RunInv(c, next, |run|);
    if s.recvs[r].pc == InGather {
      longer := next;
    } else {
      LeftIsPositive(c, next[|run|].recvs[r]);
      longer := ReceiverRunsAhead(c, next, r);
    }
  }

  /** The overlap the pipeline exists for: a run in which the sender has stored its whole first message and entered
      the Gather while every receiver is still at the start. */
  lemma WholeMessageAhead(c: Config, region: seq<byte>) returns (run: seq<State>)
    requires ValidConfig(c) && c.iters > 0 && |region| == c.n * c.d
    ensures IsRun(c, run)
    ensures var s := run[|run| - 1];
            && s.sender.iter == 0 && s.sender.pc == InGather && s.sender.chunk == c.n && s.sender.pos == |s.shm|
            && |s.shm| == c.n * c.d && (forall k :: 0 <= k < c.n * c.d ==> s.shm[k] == Cell(Message(c, 0)[k], 0))
            && |s.recvs| == |c.riovs| && (forall r :: 0 <= r < |s.recvs| ==> s.recvs[r] == START) && s.mems == c.init
  {
    var first := RunsStart(c, region);
    run := SenderRunsAhead(c, first);
  }

  /** A run in which receiver r has left the Gather of the first iteration, with the message unpacked, while the
      sender is still in its last Bcast and all other receivers are at the start. */
  lemma ReceiverLeavesGatherFirst(c: Config, region: seq<byte>, r: nat) returns (run: seq<State>)
    requires ValidConfig(c) && c.iters > 0 && |region| == c.n * c.d && r < |c.riovs|
    ensures IsRun(c, run)
    ensures var s := run[|run| - 1];
            && s.sender.iter == 0 && s.sender.pc == InBcast && s.sender.chunk == c.n - 1
            && |s.recvs| == |s.mems| == |c.riovs| && s.recvs[r].iter == 1 && s.mems[r] == MemAfter(c, r, 1)
            && forall q :: 0 <= q < |s.recvs| && q != r ==> s.recvs[q] == START
  {
    var first := RunsStart(c, region);
    var second := SenderReachesLastBcast(c, first);
    RunInv(c, second, |second| - 1);
    run := ReceiverRunsAhead(c, second, r);
    RunInv(c, run, |run| - 1);
    MemAtStart(c, r, 1);
  }
}
