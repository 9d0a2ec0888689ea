/** What the chunk protocol guarantees in every reachable state and over every whole run. */
module ProtocolTheorems {
  import opened Iovec
  import opened Arithmetic
  import opened Script
  import opened Protocol

  // --------------------------------------------------------------------------------------------
  // Safety.

  /** Every byte a receiver still has to read in the chunk it is draining was stored by the sender in the
      receiver's own iteration, and is the right byte of that iteration's message. */
  lemma ReadsAreFresh(c: Config, run: seq<State>, i: nat, r: nat, k: nat)
    requires ValidConfig(c) && IsRun(c, run) && i < |run| && r < |run[i].recvs|
    requires run[i].recvs[r].pos <= k < run[i].recvs[r].chunk * c.d
    ensures run[i].recvs[r].iter < c.iters && k < c.n * c.d && k < |run[i].shm|
    ensures run[i].shm[k] == Cell(Message(c, run[i].recvs[r].iter)[k], run[i].recvs[r].iter)
  {
    RunInv(c, run, i);
    DrainBehindSender(c, run[i].sender, run[i].recvs[r]);
  }

  /** The chunk the sender is filling never overlaps what a receiver is still reading. */
  lemma NoOverlap(c: Config, run: seq<State>, i: nat, r: nat)
    requires ValidConfig(c) && IsRun(c, run) && i < |run| && r < |run[i].recvs|
    requires run[i].sender.pc == Run
    ensures var p, q := run[i].sender, run[i].recvs[r];
            q.pos < q.chunk * c.d ==> q.chunk * c.d <= p.chunk * c.d <= p.pos
  {
    RunInv(c, run, i);
    var p, q := run[i].sender, run[i].recvs[r];
    if q.pos < q.chunk * c.d {
      DrainBehindSender(c, p, q);
      MulMonotone(q.chunk, p.chunk, c.d);
    }
  }

  /** The sender is in an iteration only after every receiver has unpacked all of the one before. */
  lemma NoEarlyOverwrite(c: Config, run: seq<State>, i: nat, r: nat)
    requires ValidConfig(c) && IsRun(c, run) && i < |run| && r < |run[i].recvs|
    ensures var p, q := run[i].sender, run[i].recvs[r];
            || p.iter <= q.iter
            || (p.iter == q.iter + 1 <= c.iters && r < |c.riovs| && r < |run[i].mems| && q.pos == c.n * c.d
                && run[i].mems[r] == MemAfter(c, r, p.iter))
  {
    RunInv(c, run, i);
  }

  /** At the end of every iteration a receiver's memory is what the iterations run one after the other give;
      if its blocks are disjoint they hold exactly the sender's message of that iteration. */
  lemma EndOfIteration(c: Config, run: seq<State>, i: nat, r: nat)
    requires ValidConfig(c) && IsRun(c, run) && i < |run| && r < |run[i].recvs|
    requires run[i].recvs[r].pc == InGather
    ensures run[i].recvs[r].iter < c.iters && r < |c.riovs| && |run[i].mems| == |c.riovs|
    ensures run[i].mems[r] == MemAfter(c, r, run[i].recvs[r].iter + 1)
    ensures Disjoint(c.riovs[r]) ==> Packed(run[i].mems[r], c.riovs[r]) == Message(c, run[i].recvs[r].iter)
  {
    RunInv(c, run, i);
    var j := run[i].recvs[r].iter;
    if Disjoint(c.riovs[r]) {
      DisjointRoundTrips(MemAfter(c, r, j), c.riovs[r], Message(c, j));
    }
  }

  /** The k-th collective of any two processes is the same operation. */
  lemma CollectivesMatch(c: Config, run: seq<State>, i: nat, r: nat, k: nat)
    requires ValidConfig(c) && IsRun(c, run) && i < |run| && r < |run[i].recvs|
    requires k < |run[i].sender.log| && k < |run[i].recvs[r].log|
    ensures run[i].sender.log[k] == run[i].recvs[r].log[k]
  {
    RunInv(c, run, i);
    var p, q := run[i].sender, run[i].recvs[r];
    if |p.log| <= |q.log| {
      CallLogPrefix(c.n, p.iter, Calls(p), q.iter, Calls(q));
    } else {
      CallLogPrefix(c.n, q.iter, Calls(q), p.iter, Calls(p));
    }
  }

  // --------------------------------------------------------------------------------------------
  // The executed actions are the engines' actions.

  /** The actions a process has carried out in its current iteration. */
  function SenderDone(c: Config, p: Proc): seq<Action>
    requires SenderInv(c, p)
  {
    MulStep(p.chunk, c.d);
    match p.pc
    case Run => SenderRounds(p.chunk, c.d) + Copies(p.chunk * c.d, p.pos)
    case InBcast => SenderRounds(p.chunk + 1, c.d)
    case InGather => SenderScript(c.n, c.d)
  }

  function ReceiverDone(c: Config, p: Proc): seq<Action>
    requires ReceiverInv(c, p)
  {
    match p.pc
    case Run =>
      if p.chunk == 0 then [] else
        MulStep(p.chunk - 1, c.d);
        ReceiverRounds(p.chunk - 1, c.d) + [Bcast] + Copies((p.chunk - 1) * c.d, p.pos)
    case InBcast => ReceiverRounds(p.chunk, c.d) + [Bcast]
    case InGather => ReceiverScript(c.n, c.d)
  }

  lemma CopiesOne(lo: nat, hi: nat)
    requires lo <= hi
    ensures Copies(lo, hi + 1) == Copies(lo, hi) + [Copy(hi)]
  {
  }

  lemma SenderAppends(c: Config, p: Proc)
    requires ValidConfig(c) && SenderInv(c, p) && p.iter < c.iters && p.pc == Run
    requires SenderInv(c, Enter(p, SenderAct(c, p)))
    ensures SenderDone(c, Enter(p, SenderAct(c, p))) == SenderDone(c, p) + [SenderAct(c, p)]
  {
    ChunkBounds(c, p.chunk);
    match SenderAct(c, p)
    case Copy(_) => CopiesOne(p.chunk * c.d, p.pos);
    case Bcast => assert SenderDone(c, p) == SenderRounds(p.chunk, c.d) + Copies(p.chunk * c.d, p.pos);
    case Gather => assert Copies(p.chunk * c.d, p.pos) == [];
  }

  /** Each step of the sender appends the action it carries out, and an iteration ends with exactly the
      script that Pipeline.PackPipelined logs. */
  lemma SenderFollowsScript(c: Config, p: Proc)
    requires ValidConfig(c) && SenderInv(c, p) && p.iter < c.iters
    ensures SenderInv(c, if p.pc == Run then Enter(p, SenderAct(c, p)) else Return(p))
    ensures p.pc == Run ==> SenderDone(c, Enter(p, SenderAct(c, p))) == SenderDone(c, p) + [SenderAct(c, p)]
    ensures p.pc == InBcast ==> SenderDone(c, Return(p)) == SenderDone(c, p)
    ensures p.pc == InGather ==> SenderDone(c, p) == SenderScript(c.n, c.d) && SenderDone(c, Return(p)) == []
  {
    SenderLocal(c, p);
    ChunkBounds(c, p.chunk);
    if p.pc == Run {
      SenderAppends(c, p);
    } else if p.pc == InBcast {
      assert Return(p).pos == Return(p).chunk * c.d;
    }
  }

  lemma ReceiverAppends(c: Config, p: Proc)
    requires ValidConfig(c) && ReceiverInv(c, p) && p.iter < c.iters && p.pc == Run
    requires ReceiverInv(c, Enter(p, ReceiverAct(c, p)))
    ensures ReceiverDone(c, Enter(p, ReceiverAct(c, p))) == ReceiverDone(c, p) + [ReceiverAct(c, p)]
  {
    ChunkBounds(c, p.chunk);
    if p.chunk > 0 {
      MulStep(p.chunk - 1, c.d);
      if p.pos < p.chunk * c.d {
        CopiesOne((p.chunk - 1) * c.d, p.pos);
      }
    }
  }

  lemma ReceiverFollowsScript(c: Config, p: Proc)
    requires ValidConfig(c) && ReceiverInv(c, p) && p.iter < c.iters
    ensures ReceiverInv(c, if p.pc == Run then Enter(p, ReceiverAct(c, p)) else Return(p))
    ensures p.pc == Run ==> ReceiverDone(c, Enter(p, ReceiverAct(c, p))) == ReceiverDone(c, p) + [ReceiverAct(c, p)]
    ensures p.pc == InBcast ==> ReceiverDone(c, Return(p)) == ReceiverDone(c, p)
    ensures p.pc == InGather ==> ReceiverDone(c, p) == ReceiverScript(c.n, c.d) && ReceiverDone(c, Return(p)) == []
  {
    ReceiverLocal(c, p);
    ChunkBounds(c, p.chunk);
    if p.pc == Run {
      ReceiverAppends(c, p);
    } else if p.pc == InBcast {
      assert Return(p).pos == (Return(p).chunk - 1) * c.d;
    }
  }

  /** All actions of a process since the start. */
  function SenderSoFar(c: Config, p: Proc): seq<Action>
    requires SenderInv(c, p)
  {
    Repeated(SenderScript(c.n, c.d), p.iter) + SenderDone(c, p)
  }

  function ReceiverSoFar(c: Config, p: Proc): seq<Action>
    requires ReceiverInv(c, p)
  {
    Repeated(ReceiverScript(c.n, c.d), p.iter) + ReceiverDone(c, p)
  }

  /** The actions of the sender in the first i steps of a run, read off the steps themselves. */
  function SenderTrace(c: Config, run: seq<State>, i: nat): seq<Action>
    requires i < |run|
  {
    if i == 0 then []
    else SenderTrace(c, run, i - 1) +
         if run[i].sender == run[i - 1].sender || run[i - 1].sender.pc != Run then []
         else [SenderAct(c, run[i - 1].sender)]
  }

  function ReceiverTrace(c: Config, run: seq<State>, r: nat, i: nat): seq<Action>
    requires i < |run| && forall j :: 0 <= j < |run| ==> r < |run[j].recvs|
  {
    if i == 0 then []
    else ReceiverTrace(c, run, r, i - 1) +
         if run[i].recvs[r] == run[i - 1].recvs[r] || run[i - 1].recvs[r].pc != Run then []
         else [ReceiverAct(c, run[i - 1].recvs[r])]
  }

  /** What one step adds to the trace of the sender. */
  lemma SenderProgress(c: Config, s: State, s': State)
    requires ValidConfig(c) && Step(c, s, s') && SenderInv(c, s.sender) && SenderInv(c, s'.sender)
    ensures SenderSoFar(c, s'.sender) == SenderSoFar(c, s.sender) +
              if s'.sender == s.sender || s.sender.pc != Run then [] else [SenderAct(c, s.sender)]
  {
    if s'.sender != s.sender {
      SenderFollowsScript(c, s.sender);
    }
  }

  lemma ReceiverNext(c: Config, q: Proc, q': Proc)
    requires ValidConfig(c) && ReceiverInv(c, q) && ReceiverInv(c, q') && q.iter < c.iters
    requires q' == if q.pc == Run then Enter(q, ReceiverAct(c, q)) else Return(q)
    ensures ReceiverSoFar(c, q') == ReceiverSoFar(c, q) + if q.pc == Run then [ReceiverAct(c, q)] else []
  {
    ReceiverFollowsScript(c, q);
    var before, done := Repeated(ReceiverScript(c.n, c.d), q.iter), ReceiverDone(c, q);
    if q.pc == Run {
      assert before + (done + [ReceiverAct(c, q)]) == before + done + [ReceiverAct(c, q)];
    } else if q.pc == InGather {
      assert Repeated(ReceiverScript(c.n, c.d), q'.iter) + [] == before + done;
    }
  }

  lemma ReceiverChange(c: Config, s: State, s': State, r: nat)
    requires Step(c, s, s') && r < |s.recvs| == |s'.recvs| && s'.recvs[r] != s.recvs[r]
    ensures var q := s.recvs[r];
            q.iter < c.iters && s'.recvs[r] == if q.pc == Run then Enter(q, ReceiverAct(c, q)) else Return(q)
  {
  }

  lemma ReceiverProgress(c: Config, s: State, s': State, r: nat)
    requires ValidConfig(c) && Step(c, s, s') && r < |s.recvs| == |s'.recvs|
    requires ReceiverInv(c, s.recvs[r]) && ReceiverInv(c, s'.recvs[r])
    ensures ReceiverSoFar(c, s'.recvs[r]) == ReceiverSoFar(c, s.recvs[r]) +
              if s'.recvs[r] == s.recvs[r] || s.recvs[r].pc != Run then [] else [ReceiverAct(c, s.recvs[r])]
  {
    if s'.recvs[r] != s.recvs[r] {
      ReceiverChange(c, s, s', r);
      ReceiverNext(c, s.recvs[r], s'.recvs[r]);
    }
  }

  lemma {:induction false} SenderTraceIs(c: Config, run: seq<State>, i: nat)
    requires ValidConfig(c) && IsRun(c, run) && i < |run|
    ensures SenderInv(c, run[i].sender) && SenderTrace(c, run, i) == SenderSoFar(c, run[i].sender)
  {
    RunInv(c, run, i);
    if i == 0 {
    } else {
      SenderTraceIs(c, run, i - 1);
      RunInv(c, run, i - 1);
      assert Step(c, run[i - 1], run[i - 1 + 1]);
      SenderProgress(c, run[i - 1], run[i]);
    }
  }

  lemma {:induction false} ReceiverTraceIs(c: Config, run: seq<State>, r: nat, i: nat)
    requires ValidConfig(c) && IsRun(c, run) && i < |run|
    requires forall j :: 0 <= j < |run| ==> r < |run[j].recvs|
    ensures ReceiverInv(c, run[i].recvs[r]) && ReceiverTrace(c, run, r, i) == ReceiverSoFar(c, run[i].recvs[r])
  {
    RunInv(c, run, i);
    if i == 0 {
    } else {
      ReceiverTraceIs(c, run, r, i - 1);
      RunInv(c, run, i - 1);
      assert Step(c, run[i - 1], run[i - 1 + 1]);
      ReceiverProgress(c, run[i - 1], run[i], r);
    }
  }

  /** In a complete run, however it is interleaved, every process carries out exactly the sequence of copies
      and collectives that the engines log: the script of one iteration, once for each iteration. */
  lemma TracesAreScripts(c: Config, run: seq<State>, r: nat)
    requires ValidConfig(c) && IsRun(c, run) && r < |c.riovs| && Final(c, run[|run| - 1])
    ensures SenderTrace(c, run, |run| - 1) == Repeated(SenderScript(c.n, c.d), c.iters)
    ensures forall j :: 0 <= j < |run| ==> r < |run[j].recvs|
    ensures ReceiverTrace(c, run, r, |run| - 1) == Repeated(ReceiverScript(c.n, c.d), c.iters)
  {
    forall j | 0 <= j < |run|
      ensures r < |run[j].recvs|
    {
      RunInv(c, run, j);
    }
    SenderTraceIs(c, run, |run| - 1);
    ReceiverTraceIs(c, run, r, |run| - 1);
  }

  /** The collectives in an action sequence. */
  function CallsOf(s: seq<Action>): seq<Action> {
    if s == [] then []
    else CallsOf(s[..|s| - 1]) + if s[|s| - 1].Copy? then [] else [s[|s| - 1]]
  }

  lemma {:induction false} CallsOfConcat(s: seq<Action>, t: seq<Action>)
    ensures CallsOf(s + t) == CallsOf(s) + CallsOf(t)
  {
    if t == [] {
      assert s + t == s;
    } else {
      CallsOfConcat(s, t[..|t| - 1]);
      assert (s + t)[..|s + t| - 1] == s + t[..|t| - 1];
    }
  }

  lemma {:induction false} CallsOfCopies(lo: nat, hi: nat)
    requires lo <= hi
    ensures CallsOf(Copies(lo, hi)) == []
  {
    if lo == hi {
    } else {
      CallsOfCopies(lo, hi - 1);
      assert Copies(lo, hi)[..hi - 1 - lo] == Copies(lo, hi - 1);
    }
  }

  /** One more round adds one Bcast, on whichever side of its copies. */
  lemma RoundCalls(s: seq<Action>, lo: nat, hi: nat)
    requires lo <= hi
    ensures CallsOf(s + Copies(lo, hi) + [Bcast]) == CallsOf(s) + [Bcast]
    ensures CallsOf(s + [Bcast] + Copies(lo, hi)) == CallsOf(s) + [Bcast]
  {
    var chunk := Copies(lo, hi);
    CallsOfCopies(lo, hi);
    assert CallsOf([Bcast]) == CallsOf([]) + [Bcast];
    CallsOfConcat(s, chunk);
    CallsOfConcat(s + chunk, [Bcast]);
    CallsOfConcat(s, [Bcast]);
    CallsOfConcat(s + [Bcast], chunk);
  }

  function Bcasts(n: nat): seq<Action> {
    if n == 0 then [] else Bcasts(n - 1) + [Bcast]
  }

  lemma OneMoreRound(n: nat, d: nat, lo: nat, hi: nat)
    requires lo == n * d && hi == (n + 1) * d && lo <= hi
    ensures CallsOf(SenderRounds(n + 1, d)) == CallsOf(SenderRounds(n, d)) + [Bcast]
    ensures CallsOf(ReceiverRounds(n + 1, d)) == CallsOf(ReceiverRounds(n, d)) + [Bcast]
  {
    assert SenderRounds(n + 1, d) == SenderRounds(n, d) + Copies(lo, hi) + [Bcast];
    assert ReceiverRounds(n + 1, d) == ReceiverRounds(n, d) + [Bcast] + Copies(lo, hi);
    RoundCalls(SenderRounds(n, d), lo, hi);
    RoundCalls(ReceiverRounds(n, d), lo, hi);
  }

  lemma {:induction false} RoundsCalls(n: nat, d: nat)
    ensures CallsOf(SenderRounds(n, d)) == CallsOf(ReceiverRounds(n, d)) == Bcasts(n)
  {
    if n == 0 {
    } else {
      RoundsCalls(n - 1, d);
      MulStep(n - 1, d);
      OneMoreRound(n - 1, d, (n - 1) * d, n * d);
    }
  }

  lemma {:induction false} BcastsAre(n: nat)
    ensures |Bcasts(n)| == n && forall k :: 0 <= k < n ==> Bcasts(n)[k] == Bcast
  {
    if n == 0 {
    } else {
      BcastsAre(n - 1);
    }
  }

  /** Sender and receivers enter the same collectives in every iteration: one Bcast for each chunk, then one
      Gather. */
  lemma ScriptsMatch(n: nat, d: nat)
    ensures CallsOf(SenderScript(n, d)) == CallsOf(ReceiverScript(n, d)) == IterCalls(n)
  {
    RoundsCalls(n, d);
    assert CallsOf([Gather]) == CallsOf([]) + [Gather];
    CallsOfConcat(SenderRounds(n, d), [Gather]);
    CallsOfConcat(ReceiverRounds(n, d), [Gather]);
    BcastsAre(n);
    assert Bcasts(n) + [Gather] == IterCalls(n);
  }

  // --------------------------------------------------------------------------------------------
  // Progress: every step is one unit of a fixed amount of work.

  /** Steps one process takes in one iteration. */
  function IterWork(c: Config): nat {
    c.n * c.d + 2 * (c.n + 1)
  }

  function Work(c: Config, p: Proc): nat {
    p.iter * IterWork(c) + p.pos + 2 * p.chunk + if p.pc == Run then 0 else 1
  }

  function WorkOfAll(c: Config, ps: seq<Proc>): nat {
    if ps == [] then 0 else WorkOfAll(c, ps[..|ps| - 1]) + Work(c, ps[|ps| - 1])
  }

  function TotalWork(c: Config, s: State): nat {
    Work(c, s.sender) + WorkOfAll(c, s.recvs)
  }

  lemma {:induction false} WorkUpdate(c: Config, ps: seq<Proc>, r: nat, q: Proc)
    requires r < |ps|
    ensures WorkOfAll(c, ps[r := q]) == WorkOfAll(c, ps) - Work(c, ps[r]) + Work(c, q)
  {
    var ps' := ps[r := q];
    if r < |ps| - 1 {
      WorkUpdate(c, ps[..|ps| - 1], r, q);
      assert ps'[..|ps| - 1] == ps[..|ps| - 1][r := q];
    } else {
      assert ps'[..|ps| - 1] == ps[..|ps| - 1];
    }
  }

  lemma {:induction false} WorkOfEqual(c: Config, ps: seq<Proc>, w: nat)
    requires forall r :: 0 <= r < |ps| ==> Work(c, ps[r]) == w
    ensures WorkOfAll(c, ps) == |ps| * w
  {
    if ps == [] {
    } else {
      WorkOfEqual(c, ps[..|ps| - 1], w);
      MulStep(|ps| - 1, w);
    }
  }

  lemma LocalWork(c: Config, p: Proc, a: Action)
    requires p.pc == InGather ==> p.chunk == c.n && p.pos == c.n * c.d
    ensures p.pc == Run ==> Work(c, Enter(p, a)) == Work(c, p) + 1
    ensures p.pc != Run ==> Work(c, Return(p)) == Work(c, p) + 1
  {
    MulStep(p.iter, IterWork(c));
  }

  lemma ReceiverWork(c: Config, s: State, r: nat, s': State)
    requires ValidConfig(c) && Inv(c, s) && ReceiverStep(c, s, r, s')
    ensures WorkOfAll(c, s'.recvs) == WorkOfAll(c, s.recvs) + 1
  {
    var q := s.recvs[r];
    assert ReceiverInv(c, q);
    LocalWork(c, q, ReceiverAct(c, q));
    WorkUpdate(c, s.recvs, r, if q.pc == Run then Enter(q, ReceiverAct(c, q)) else Return(q));
  }

  lemma StepWork(c: Config, s: State, s': State)
    requires ValidConfig(c) && Inv(c, s) && Step(c, s, s')
    ensures TotalWork(c, s') == TotalWork(c, s) + 1
  {
    if SenderStep(c, s, s') {
      LocalWork(c, s.sender, SenderAct(c, s.sender));
    } else {
      var r: nat :| ReceiverStep(c, s, r, s');
      ReceiverWork(c, s, r, s');
    }
  }

  /** The number of steps taken is a function of the state reached, not of the interleaving. */
  lemma {:induction false} RunWork(c: Config, run: seq<State>, i: nat)
    requires ValidConfig(c) && IsRun(c, run) && i < |run|
    ensures TotalWork(c, run[i]) == i
  {
    if i == 0 {
      WorkOfEqual(c, run[0].recvs, 0);
    } else {
      RunWork(c, run, i - 1);
      RunInv(c, run, i - 1);
      assert Step(c, run[i - 1], run[i - 1 + 1]);
      StepWork(c, run[i - 1], run[i]);
    }
  }

  lemma WorkBound(c: Config, p: Proc)
    requires ValidConfig(c) && Shared(c, p)
    ensures Work(c, p) <= c.iters * IterWork(c)
    ensures p.iter == c.iters <==> Work(c, p) == c.iters * IterWork(c)
  {
    if p.iter < c.iters {
      MulStep(p.iter, IterWork(c));
      MulMonotone(p.iter + 1, c.iters, IterWork(c));
    }
  }

  lemma {:induction false} WorkOfAllBound(c: Config, ps: seq<Proc>, w: nat)
    requires forall r :: 0 <= r < |ps| ==> Work(c, ps[r]) <= w
    ensures WorkOfAll(c, ps) <= |ps| * w
    ensures WorkOfAll(c, ps) == |ps| * w ==> forall r :: 0 <= r < |ps| ==> Work(c, ps[r]) == w
  {
    if ps == [] {
    } else {
      WorkOfAllBound(c, ps[..|ps| - 1], w);
      MulStep(|ps| - 1, w);
    }
  }

  /** No run is longer than (receivers + 1) * iters * IterWork steps, and a run has that length exactly when
      every process has finished: the protocol terminates under every schedule. */
  lemma RunLength(c: Config, run: seq<State>)
    requires ValidConfig(c) && IsRun(c, run)
    ensures |run| - 1 <= (|c.riovs| + 1) * (c.iters * IterWork(c))
    ensures |run| - 1 == (|c.riovs| + 1) * (c.iters * IterWork(c)) <==> Final(c, run[|run| - 1])
  {
    var s, w := run[|run| - 1], c.iters * IterWork(c);
    RunInv(c, run, |run| - 1);
    RunWork(c, run, |run| - 1);
    WorkBound(c, s.sender);
    forall r | 0 <= r < |s.recvs|
      ensures Work(c, s.recvs[r]) <= w && (s.recvs[r].iter == c.iters <==> Work(c, s.recvs[r]) == w)
    {
      WorkBound(c, s.recvs[r]);
    }
    WorkOfAllBound(c, s.recvs, w);
    MulStep(|c.riovs|, w);
    if Final(c, s) {
      WorkOfEqual(c, s.recvs, w);
    }
  }

  // --------------------------------------------------------------------------------------------
  // Deadlock freedom.

  lemma SenderCanMove(c: Config, s: State) returns (s': State)
    requires ValidConfig(c) && Inv(c, s) && s.sender.iter < c.iters && SenderMayReturn(s)
    ensures SenderStep(c, s, s')
  {
    var p := s.sender;
    SenderLocal(c, p);
    if p.pc != Run {
      s' := s.(sender := Return(p));
    } else if SenderAct(c, p).Copy? {
      AddrInMemory(c.siov, |c.src[p.iter]|, p.pos);
      s' := s.(sender := Enter(p, SenderAct(c, p)),
               shm := s.shm[p.pos := Cell(c.src[p.iter][AddrOf(c.siov, p.pos)], p.iter)]);
    } else {
      s' := s.(sender := Enter(p, SenderAct(c, p)));
    }
  }

  lemma ReceiverCanMove(c: Config, s: State, r: nat) returns (s': State)
    requires ValidConfig(c) && Inv(c, s) && r < |s.recvs| && s.recvs[r].iter < c.iters
    requires ReceiverMayReturn(s, s.recvs[r])
    ensures ReceiverStep(c, s, r, s')
  {
    var q := s.recvs[r];
    if q.pc != Run {
      s' := s.(recvs := s.recvs[r := Return(q)]);
    } else if ReceiverAct(c, q).Copy? {
      ReceiverLocal(c, q);
      AddrInMemory(c.riovs[r], |c.init[r]|, q.pos);
      s' := s.(recvs := s.recvs[r := Enter(q, ReceiverAct(c, q))],
               mems := s.mems[r := s.mems[r][AddrOf(c.riovs[r], q.pos) := s.shm[q.pos].val]]);
    } else {
      s' := s.(recvs := s.recvs[r := Enter(q, ReceiverAct(c, q))]);
    }
  }

  lemma FinishedSender(c: Config, p: Proc, q: Proc)
    requires ValidConfig(c) && SenderInv(c, p) && ReceiverInv(c, q) && InStep(c, p, q)
    requires p.iter == c.iters
    ensures q.iter != c.iters ==> q.pc == InGather
  {
  }

  lemma LaggingReceiver(c: Config, p: Proc, q: Proc)
    requires ValidConfig(c) && SenderInv(c, p) && ReceiverInv(c, q) && InStep(c, p, q)
    requires p.iter < c.iters && |q.log| < |p.log|
    ensures q.iter < c.iters
  {
    LogOrder(c.n, q.iter, Calls(q), p.iter, Calls(p));
  }

  lemma SomeoneMoves(c: Config, s: State) returns (s': State)
    requires ValidConfig(c) && Inv(c, s) && !Final(c, s)
    ensures Step(c, s, s')
  {
    if s.sender.iter < c.iters && SenderMayReturn(s) {
      s' := SenderCanMove(c, s);
    } else if s.sender.iter < c.iters {
      var r: nat :| r < |s.recvs| && |s.recvs[r].log| < |s.sender.log|;
      LaggingReceiver(c, s.sender, s.recvs[r]);
      s' := ReceiverCanMove(c, s, r);
    } else {
      var r: nat :| r < |s.recvs| && s.recvs[r].iter != c.iters;
      FinishedSender(c, s.sender, s.recvs[r]);
      s' := ReceiverCanMove(c, s, r);
    }
  }

  ghost predicate Stuck(c: Config, s: State) {
    forall s' :: !Step(c, s, s')
  }

  /** As long as some process has not finished, some process can take a step. */
  lemma NoDeadlock(c: Config, run: seq<State>, i: nat)
    requires ValidConfig(c) && IsRun(c, run) && i < |run|
    ensures Stuck(c, run[i]) <==> Final(c, run[i])
  {
    RunInv(c, run, i);
    if !Final(c, run[i]) {
      var _ := SomeoneMoves(c, run[i]);
    }
  }

  /** Under any schedule that keeps taking steps while one is possible, every receiver ends with the memory
      that the iterations run one after the other give, and all processes have made the same calls. */
  lemma MaximalRunIsCorrect(c: Config, run: seq<State>, r: nat)
    requires ValidConfig(c) && IsRun(c, run) && r < |c.riovs|
    requires Stuck(c, run[|run| - 1])
    ensures Final(c, run[|run| - 1])
    ensures |run[|run| - 1].mems| == |run[|run| - 1].recvs| == |c.riovs|
    ensures run[|run| - 1].mems[r] == MemAfter(c, r, c.iters)
    ensures run[|run| - 1].recvs[r].log == run[|run| - 1].sender.log == CallLog(c.n, c.iters, 0)
    ensures c.iters > 0 && Disjoint(c.riovs[r]) ==>
              Packed(run[|run| - 1].mems[r], c.riovs[r]) == Message(c, c.iters - 1)
  {
    var last := |run| - 1;
    NoDeadlock(c, run, last);
    RunInv(c, run, last);
    if c.iters > 0 && Disjoint(c.riovs[r]) {
      DisjointRoundTrips(MemAfter(c, r, c.iters - 1), c.riovs[r], Message(c, c.iters - 1));
    }
  }

  lemma RunExtends(c: Config, run: seq<State>, s': State)
    requires IsRun(c, run) && Step(c, run[|run| - 1], s')
    ensures IsRun(c, run + [s'])
  {
    var longer := run + [s'];
    forall i | 0 <= i < |longer| - 1
      ensures Step(c, longer[i], longer[i + 1])
    {
      if i < |run| - 1 {
        assert Step(c, run[i], run[i + 1]);
      }
    }
  }

  /** Every run can be continued to a final state. */
  lemma {:induction false} RunsComplete(c: Config, run: seq<State>) returns (whole: seq<State>)
    requires ValidConfig(c) && IsRun(c, run)
    ensures IsRun(c, whole) && run <= whole && Final(c, whole[|whole| - 1])
    decreases (|c.riovs| + 1) * (c.iters * IterWork(c)) + 1 - |run|
  {
    RunLength(c, run);
    var s := run[|run| - 1];
    if Final(c, s) {
      whole := run;
    } else {
      RunInv(c, run, |run| - 1);
      var s' := SomeoneMoves(c, s);
      RunExtends(c, run, s');
      RunLength(c, run + [s']);
      whole := RunsComplete(c, run + [s']);
    }
  }
}
