/** What a process does in one iteration, as seen by the other processes: it copies stream bytes and
    enters collective operations. The engines record this sequence; the protocol executes it. */
module Script {
  import opened Arithmetic

  datatype Action = Copy(k: nat) | Bcast | Gather

  function Copies(lo: nat, hi: nat): (s: seq<Action>)
    requires lo <= hi
    ensures |s| == hi - lo
    ensures forall i :: 0 <= i < |s| ==> s[i] == Copy(lo + i)
  {
    seq(hi - lo, i requires 0 <= i < hi - lo => Copy(lo + i))
  }

  lemma CopiesExtend(lo: nat, mid: nat, hi: nat)
    requires lo <= mid <= hi
    ensures Copies(lo, mid) + Copies(mid, hi) == Copies(lo, hi)
  {
  }

  /** The copy log of a memcpy that moves stream bytes mid..hi after lo..mid have been moved. */
  function Logged(log: seq<Action>, lo: nat, mid: nat, hi: nat): (r: seq<Action>)
    requires lo <= mid <= hi && log == Copies(lo, mid)
    ensures r == Copies(lo, hi)
  {
    CopiesExtend(lo, mid, hi);
    log + Copies(mid, hi)
  }

  /** The sender announces each chunk of d bytes after it has stored it. */
  function SenderRounds(c: nat, d: nat): seq<Action> {
    if c == 0 then [] else
      MulStep(c - 1, d);
      SenderRounds(c - 1, d) + Copies((c - 1) * d, c * d) + [Bcast]
  }

  /** A receiver waits for the announcement before it loads a chunk. */
  function ReceiverRounds(c: nat, d: nat): seq<Action> {
    if c == 0 then [] else
      MulStep(c - 1, d);
      ReceiverRounds(c - 1, d) + [Bcast] + Copies((c - 1) * d, c * d)
  }

  /** One whole iteration: n chunks of d bytes, then the final Gather. */
  function SenderScript(n: nat, d: nat): seq<Action> {
    SenderRounds(n, d) + [Gather]
  }

  function ReceiverScript(n: nat, d: nat): seq<Action> {
    ReceiverRounds(n, d) + [Gather]
  }

  /** How many whole chunks a message has. */
  function Chunks(total: nat, full: nat): nat
    requires full > 0
  {
    total / full
  }

  /** A whole run: the same script in every iteration. */
  function Repeated(script: seq<Action>, iters: nat): seq<Action> {
    if iters == 0 then [] else Repeated(script, iters - 1) + script
  }
}
