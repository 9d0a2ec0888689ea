/** Whole runs of the two XPMEM benchmarks, and when they read only live attachments. */
module XpmemEngines {
  import opened Iovec
  import opened Arithmetic
  import opened StreamCopy
  import opened Pages
  import opened Xpmem

  /** No block smaller than a page crosses a page boundary. */
  ghost predicate NoStraddle(v: seq<IoVec>, page: nat)
    requires page > 0
  {
    forall i :: 0 <= i < |v| && Small(v[i], page) ==> PageOffset(v[i], page) + v[i].len <= page
  }

  /** The index of the first block smaller than a page, from i on. */
  function FirstSmall(v: seq<IoVec>, page: nat, i: nat): (k: nat)
    requires i <= |v|
    ensures i <= k <= |v| && (k < |v| ==> Small(v[k], page))
    ensures forall j :: i <= j < k ==> !Small(v[j], page)
    decreases |v| - i
  {
    if i == |v| || Small(v[i], page) then i else FirstSmall(v, page, i + 1)
  }

  /** The first small block, if any, is not on the page the memo names. */
  predicate FreshStart(v: seq<IoVec>, page: nat, last: nat)
    requires page > 0
  {
    var k := FirstSmall(v, page, 0);
    k == |v| || PageBase(v[k].base, page) != last
  }

  /** Number of attach calls for one table, started with an empty memo. */
  function AttachCalls(v: seq<IoVec>, page: nat): nat
    requires page > 0
  {
    AttachesFor(v, page, 0, |v|)
  }

  /** The uncached run is safe: no straddling block, no block on page 0, and, if there is a second iteration,
      the last small block of one iteration is not on the page of the first small block of the next. */
  predicate MemoSafe(v: seq<IoVec>, page: nat, iters: nat)
    requires page > 0
  {
    FreshStart(v, page, 0) && (iters > 1 ==> FreshStart(v, page, Memo(v, page, 0, |v|)))
  }

  ghost predicate NocacheSafe(v: seq<IoVec>, page: nat, iters: nat)
    requires page > 0
  {
    iters == 0 || (NoStraddle(v, page) && MemoSafe(v, page, iters))
  }

  ghost predicate CachedSafe(v: seq<IoVec>, page: nat, iters: nat)
    requires page > 0
  {
    iters == 0 || (NoStraddle(v, page) && FreshStart(v, page, 0))
  }

  /** A stale slot cannot be hidden by an attach that happens to return the stale handle again: the driver
      does not reuse addresses, or there is no stale slot, or nothing at all is attached. (In a first iteration
      the stale handle is NULL, which no driver returns.) */
  predicate StaleShows(reuse: bool, v: seq<IoVec>, page: nat, last: nat)
    requires page > 0
  {
    !reuse || FreshStart(v, page, last) || AttachesFor(v, page, last, |v|) == 0
  }

  predicate StaleShowsInRun(reuse: bool, v: seq<IoVec>, page: nat)
    requires page > 0
  {
    StaleShows(reuse, v, page, Memo(v, page, 0, |v|))
  }

  // --------------------------------------------------------------------------------------------
  // The memo over several iterations.

  lemma {:induction false} BeforeFirstSmall(v: seq<IoVec>, page: nat, last: nat, i: nat)
    requires page > 0 && i <= FirstSmall(v, page, 0)
    ensures PageAttaches(v, page, last, i) == 0 && Memo(v, page, last, i) == last
  {
    if i == 0 {
    } else {
      BeforeFirstSmall(v, page, last, i - 1);
    }
  }

  /** A fresh start is exactly the absence of stale slots. */
  lemma FreshStartIffNoStale(v: seq<IoVec>, page: nat, last: nat)
    requires page > 0
    ensures FreshStart(v, page, last) <==> forall i :: 0 <= i < |v| ==> !Stale(v, page, last, i)
  {
    var k := FirstSmall(v, page, 0);
    BeforeFirstSmall(v, page, last, k);
    if k < |v| {
      if PageBase(v[k].base, page) == last {
        assert Stale(v, page, last, k);
      } else {
        forall i | 0 <= i < |v|
          ensures !Stale(v, page, last, i)
        {
          if i >= k {
            PageAttachesMonotone(v, page, last, k + 1, i + 1);
          }
        }
      }
    }
  }

  /** Once a small block has been seen, the memo no longer depends on where it started. */
  lemma {:induction false} MemoForgets(v: seq<IoVec>, page: nat, last: nat, last': nat, i: nat)
    requires page > 0 && i <= |v|
    ensures FirstSmall(v, page, 0) < i ==> Memo(v, page, last, i) == Memo(v, page, last', i)
    ensures i <= FirstSmall(v, page, 0) ==> Memo(v, page, last, i) == last
  {
    if i == 0 {
    } else {
      MemoForgets(v, page, last, last', i - 1);
    }
  }

  /** Every fresh start costs the same number of attaches. */
  lemma {:induction false} FreshStartsCostTheSame(v: seq<IoVec>, page: nat, last: nat, last': nat, i: nat)
    requires page > 0 && i <= |v| && FreshStart(v, page, last) && FreshStart(v, page, last')
    ensures PageAttaches(v, page, last, i) == PageAttaches(v, page, last', i)
  {
    if i == 0 {
    } else {
      FreshStartsCostTheSame(v, page, last, last', i - 1);
      MemoForgets(v, page, last, last', i - 1);
      MemoForgets(v, page, last', last, i - 1);
    }
  }

  // --------------------------------------------------------------------------------------------
  // Reading through the table.

  predicate Readable(b: IoVec, page: nat, h: nat, live: map<nat, Segment>)
    requires page > 0
  {
    h in live && PageOffset(b, page) + b.len <= live[h].len
  }

  /** The remote addresses the copy phase reads for the blocks of v. */
  function Through(t: seq<nat>, live: map<nat, Segment>, v: seq<IoVec>, page: nat): (w: seq<IoVec>)
    requires page > 0 && |t| == |v|
    ensures |w| == |v|
  {
    seq(|v|, i requires 0 <= i < |v| =>
      if Readable(v[i], page, t[i], live) then IoVec(live[t[i]].addr + PageOffset(v[i], page), v[i].len) else v[i])
  }

  ghost predicate AllReadable(t: seq<nat>, live: map<nat, Segment>, v: seq<IoVec>, page: nat)
    requires page > 0 && |t| == |v|
  {
    forall i :: 0 <= i < |v| ==> Readable(v[i], page, t[i], live)
  }

  ghost predicate Mapped(live: map<nat, Segment>, size: nat) {
    forall h :: h in live ==> live[h].addr + live[h].len <= size
  }

  /** All blocks, and the whole pages of the small ones, belong to the sender's memory. */
  ghost predicate PagesMapped(v: seq<IoVec>, page: nat, size: nat)
    requires page > 0
  {
    && InMemory(v, size)
    && forall i :: 0 <= i < |v| && Small(v[i], page) ==> PageBase(v[i].base, page) + page <= size
  }

  lemma {:induction false} ThroughOffset(t: seq<nat>, live: map<nat, Segment>, v: seq<IoVec>, page: nat, i: nat)
    requires page > 0 && |t| == |v| && i <= |v|
    ensures Offset(Through(t, live, v, page), i) == Offset(v, i)
  {
    if i == 0 {
    } else {
      ThroughOffset(t, live, v, page, i - 1);
    }
  }

  lemma ThroughInMemory(t: seq<nat>, live: map<nat, Segment>, v: seq<IoVec>, page: nat, size: nat)
    requires page > 0 && |t| == |v| && Mapped(live, size) && InMemory(v, size)
    ensures InMemory(Through(t, live, v, page), size) && Total(Through(t, live, v, page)) == Total(v)
  {
    ThroughOffset(t, live, v, page, |v|);
    var w := Through(t, live, v, page);
    forall i | 0 <= i < |w|
      ensures w[i].base + w[i].len <= size
    {
      if Readable(v[i], page, t[i], live) {
        assert live[t[i]].addr + live[t[i]].len <= size;
      }
    }
  }

  /** Page translation is correct: base & ~mask plus the in-page offset is the block's own address. */
  lemma ThroughIsIdentity(t: seq<nat>, live: map<nat, Segment>, v: seq<IoVec>, page: nat)
    requires page > 0 && |t| == |v|
    requires forall i :: 0 <= i < |v| ==> t[i] in live && live[t[i]] == SegmentOf(v[i], page)
    ensures Through(t, live, v, page) == v
    ensures NoStraddle(v, page) <==> AllReadable(t, live, v, page)
  {
    forall i | 0 <= i < |v|
      ensures Readable(v[i], page, t[i], live) <==> PageOffset(v[i], page) + v[i].len <= SegmentOf(v[i], page).len
    {
    }
  }

  /** Copies every block through its table entry; `ok` is false when an entry is not attached or the block
      reaches beyond the attachment. */
  method CopyPhase(drv: Driver, remote: array<byte>, iov: seq<IoVec>, page: nat, table: array<nat>,
                   lbuf: array<byte>, at: nat)
    returns (ok: bool)
    requires page > 0 && table.Length == |iov| && lbuf != remote
    requires Mapped(drv.live, remote.Length) && InMemory(iov, remote.Length) && at + Total(iov) <= lbuf.Length
    modifies lbuf
    ensures ok <==> AllReadable(table[..], drv.live, iov, page)
    ensures InMemory(Through(table[..], drv.live, iov, page), remote.Length)
    ensures Total(Through(table[..], drv.live, iov, page)) == Total(iov)
    ensures ok ==> lbuf[..] == Splice(old(lbuf[..]), at, Packed(remote[..], Through(table[..], drv.live, iov, page)))
  {
    var offset: nat := 0;
    ghost var w, before, source := Through(table[..], drv.live, iov, page), lbuf[..], remote[..];
    ThroughInMemory(table[..], drv.live, iov, page, remote.Length);
    StoredNothing(before, at, source, w);
    for i := 0 to |iov|
      invariant remote[..] == source
      invariant forall j :: 0 <= j < i ==> Readable(iov[j], page, table[j], drv.live)
      invariant offset == Offset(w, i) <= Total(w)
      invariant lbuf[..] == Stored(before, at, source, w, offset)
    {
      var pgOff := PageOffset(iov[i], page);
      if table[i] !in drv.live || pgOff + iov[i].len > drv.live[table[i]].len {
        return false;
      }
      StoreSegment(lbuf, at + offset, remote, drv.live[table[i]].addr + pgOff, iov[i].len, at, w, i, 0, before);
      offset := offset + iov[i].len;
    }
    StoredAll(before, at, source, w);
    return true;
  }

  /** Detaches every slot; a handle in several slots is detached once for each. */
  method DetachAll(drv: Driver, table: array<nat>)
    requires drv.Valid()
    modifies drv`live
    ensures drv.Valid()
    ensures drv.live == old(drv.live) - (set h | h in table[..])
  {
    for i := 0 to table.Length
      invariant drv.Valid()
      invariant drv.live == old(drv.live) - (set h | h in table[..i])
    {
      assert table[..i + 1] == table[..i] + [table[i]];
      if table[i] != 0 {
        drv.Detach(table[i]);
      }
    }
    assert table[..table.Length] == table[..];
  }

  // --------------------------------------------------------------------------------------------
  // One table, seen from outside.

  /** All attachments stay inside the sender's memory. */
  lemma TableMapped(v: seq<IoVec>, page: nat, last: nat, curr: nat, t: seq<nat>, live: map<nat, Segment>,
                    before: map<nat, Segment>, size: nat)
    requires page > 0 && |t| == |v| && TableInv(v, page, last, curr, t, |v|, live, before)
    requires PagesMapped(v, page, size) && Mapped(before, size)
    ensures Mapped(live, size)
  {
    forall h | h in live
      ensures live[h].addr + live[h].len <= size
    {
      if h !in before {
        var i :| 0 <= i < |v| && t[i] == h && !Stale(v, page, last, i);
        assert SlotGood(v, page, i, t[i], live, before);
      }
    }
  }

  /** After a fresh start every slot is a live attachment of its own page or block, made by this table; the
      table reads exactly the listed blocks, and taking all its handles away restores the attachments there
      were before. */
  lemma FreshTable(v: seq<IoVec>, page: nat, last: nat, curr: nat, t: seq<nat>, live: map<nat, Segment>,
                   before: map<nat, Segment>)
    requires page > 0 && |t| == |v| && TableInv(v, page, last, curr, t, |v|, live, before)
    requires FreshStart(v, page, last)
    ensures forall i :: 0 <= i < |v| ==> SlotGood(v, page, i, t[i], live, before)
    ensures Through(t, live, v, page) == v
    ensures AllReadable(t, live, v, page) <==> NoStraddle(v, page)
    ensures live - (set h | h in t) == before
  {
    FreshStartIffNoStale(v, page, last);
    assert forall i :: 0 <= i < |v| ==> SlotGood(v, page, i, t[i], live, before);
    ThroughIsIdentity(t, live, v, page);
    var rest := live - (set h | h in t);
    forall h | h in live && h !in before
      ensures h in t
    {
      var i :| 0 <= i < |v| && t[i] == h && !Stale(v, page, last, i);
    }
    assert rest.Keys == before.Keys;
  }

  /** Otherwise the slot of the first small block holds a handle that has been detached. */
  lemma StaleTable(v: seq<IoVec>, page: nat, last: nat, curr: nat, t: seq<nat>, live: map<nat, Segment>,
                   before: map<nat, Segment>)
    requires page > 0 && |t| == |v| && TableInv(v, page, last, curr, t, |v|, live, before)
    requires !FreshStart(v, page, last) && curr !in live
    ensures !AllReadable(t, live, v, page)
  {
    FreshStartIffNoStale(v, page, last);
    var i :| 0 <= i < |v| && Stale(v, page, last, i);
    assert t[i] == curr;
    assert !Readable(v[i], page, t[i], live);
  }

  lemma {:induction false} NoAttachesNoLargeBlocks(v: seq<IoVec>, page: nat, i: nat, n: nat)
    requires page > 0 && i < n <= |v| && LargeBlocks(v, page, n) == 0
    ensures Small(v[i], page)
  {
    if i == n - 1 {
    } else {
      NoAttachesNoLargeBlocks(v, page, i, n - 1);
    }
  }

  /** If the loop attaches nothing, all slots are stale and nothing is live that was not live before. */
  lemma NothingAttached(v: seq<IoVec>, page: nat, last: nat, curr: nat, t: seq<nat>, live: map<nat, Segment>,
                        before: map<nat, Segment>)
    requires page > 0 && |t| == |v| && TableInv(v, page, last, curr, t, |v|, live, before)
    requires AttachesFor(v, page, last, |v|) == 0
    ensures live.Keys <= before.Keys
  {
    forall i | 0 <= i < |v|
      ensures Stale(v, page, last, i)
    {
      NoAttachesNoLargeBlocks(v, page, i, |v|);
      PageAttachesMonotone(v, page, last, i + 1, |v|);
    }
  }

  /** When a finished table can be read: all of it after a fresh start without straddling blocks; not all of it
      after another start, if the old handle is still detached (as it is when nothing was attached). */
  lemma TableOutcome(v: seq<IoVec>, page: nat, last: nat, curr: nat, t: seq<nat>, live: map<nat, Segment>,
                     before: map<nat, Segment>)
    requires page > 0 && |t| == |v| && TableInv(v, page, last, curr, t, |v|, live, before)
    requires curr !in before
    ensures FreshStart(v, page, last) ==> Through(t, live, v, page) == v
    ensures FreshStart(v, page, last) ==> (AllReadable(t, live, v, page) <==> NoStraddle(v, page))
    ensures !FreshStart(v, page, last) && (curr !in live || AttachesFor(v, page, last, |v|) == 0) ==>
              !AllReadable(t, live, v, page)
  {
    if FreshStart(v, page, last) {
      FreshTable(v, page, last, curr, t, live, before);
    } else {
      if AttachesFor(v, page, last, |v|) == 0 {
        NothingAttached(v, page, last, curr, t, live, before);
      }
      if curr !in live {
        StaleTable(v, page, last, curr, t, live, before);
      }
    }
  }

  /** A detached memo handle: NULL, or handed out before and not attached now. */
  ghost predicate Dead(h: nat, live: map<nat, Segment>, used: set<nat>) {
    h !in live && (h == 0 || h in used)
  }

  /** Build and copy. `ok` is false when the copy phase meets an entry it cannot read. */
  method BuildAndCopy(drv: Driver, remote: array<byte>, iov: seq<IoVec>, page: nat, table: array<nat>,
                      lbuf: array<byte>, at: nat, last: nat, curr: nat)
    returns (ok: bool, last': nat, curr': nat)
    requires drv.Valid() && page > 0 && table.Length == |iov| && lbuf != remote
    requires PagesMapped(iov, page, remote.Length) && Mapped(drv.live, remote.Length)
    requires at + Total(iov) <= lbuf.Length && Dead(curr, drv.live, drv.used)
    modifies drv, table, lbuf
    ensures drv.Valid() && old(drv.used) <= drv.used
    ensures FreshStart(iov, page, last) && NoStraddle(iov, page) ==> ok
    ensures curr == 0 || StaleShows(drv.reuse, iov, page, last) ==>
              (ok <==> FreshStart(iov, page, last) && NoStraddle(iov, page))
    ensures Mapped(drv.live, remote.Length)
    ensures TableInv(iov, page, last, curr, table[..], |iov|, drv.live, old(drv.live))
    ensures HandleSharing(iov, page, last, table[..], |iov|, curr')
    ensures last' == Memo(iov, page, last, |iov|) && curr' !in old(drv.live) && (curr' == 0 || curr' in drv.used)
    ensures ok && FreshStart(iov, page, last) ==> lbuf[..] == Splice(old(lbuf[..]), at, Packed(remote[..], iov))
    ensures drv.attaches == old(drv.attaches) + AttachesFor(iov, page, last, |iov|)
  {
    ghost var before, bytes, source := drv.live, lbuf[..], remote[..];
    last', curr' := BuildTable(drv, iov, page, table, last, curr);
    TableMapped(iov, page, last, curr, table[..], drv.live, before, remote.Length);
    TableOutcome(iov, page, last, curr, table[..], drv.live, before);
    ok := CopyPhase(drv, remote, iov, page, table, lbuf, at);
    assert remote[..] == source;
  }

  // --------------------------------------------------------------------------------------------
  // The uncached benchmark.

  /** What is left after the detach phase: with a detached memo handle, fresh or not, exactly the attachments
      there were before. */
  lemma AfterDetach(v: seq<IoVec>, page: nat, last: nat, curr: nat, t: seq<nat>, live: map<nat, Segment>,
                    before: map<nat, Segment>, after: map<nat, Segment>)
    requires page > 0 && |t| == |v| && TableInv(v, page, last, curr, t, |v|, live, before)
    requires after == live - (set h | h in t)
    ensures forall h :: h in after ==> h in before && after[h] == before[h]
    ensures curr !in before ==> after == before
  {
    forall h | h in live && h !in before
      ensures h in t
    {
      var i :| 0 <= i < |v| && t[i] == h && !Stale(v, page, last, i);
    }
    if curr !in before {
      assert after.Keys == before.Keys;
    }
  }

  ghost predicate LastSmall(v: seq<IoVec>, page: nat, i: nat)
    requires i < |v|
  {
    Small(v[i], page) && forall k :: i < k < |v| ==> !Small(v[k], page)
  }

  lemma {:induction false} NoSmallNoAttach(v: seq<IoVec>, page: nat, last: nat, i: nat, j: nat)
    requires page > 0 && i <= j <= |v| && forall k :: i <= k < j ==> !Small(v[k], page)
    ensures PageAttaches(v, page, last, j) == PageAttaches(v, page, last, i)
  {
    if i == j {
    } else {
      NoSmallNoAttach(v, page, last, i, j - 1);
    }
  }

  /** The memo's handle is the one in the slot of the last small block. */
  lemma LastSmallHandle(v: seq<IoVec>, page: nat, last: nat, t: seq<nat>, curr': nat)
    requires page > 0 && |t| == |v| && HandleSharing(v, page, last, t, |v|, curr')
    ensures forall i :: 0 <= i < |v| && LastSmall(v, page, i) ==> t[i] == curr'
  {
    forall i | 0 <= i < |v| && LastSmall(v, page, i)
      ensures t[i] == curr'
    {
      NoSmallNoAttach(v, page, last, i + 1, |v|);
    }
  }

  /** One iteration of a receiver: attach, copy, detach. The memo comes from the iteration before, and its
      handle has been detached there. */
  method NocacheIteration(drv: Driver, remote: array<byte>, iov: seq<IoVec>, page: nat, table: array<nat>,
                          lbuf: array<byte>, at: nat, last: nat, curr: nat)
    returns (ok: bool, last': nat, curr': nat)
    requires drv.Valid() && page > 0 && table.Length == |iov| && lbuf != remote
    requires PagesMapped(iov, page, remote.Length) && Mapped(drv.live, remote.Length)
    requires at + Total(iov) <= lbuf.Length && Dead(curr, drv.live, drv.used)
    modifies drv, table, lbuf
    ensures drv.Valid() && Mapped(drv.live, remote.Length)
    ensures FreshStart(iov, page, last) && NoStraddle(iov, page) ==> ok
    ensures curr == 0 || StaleShows(drv.reuse, iov, page, last) ==>
              (ok <==> FreshStart(iov, page, last) && NoStraddle(iov, page))
    ensures ok ==> last' == Memo(iov, page, last, |iov|) && Dead(curr', drv.live, drv.used)
    ensures forall i :: 0 <= i < |iov| && Stale(iov, page, last, i) ==> table[i] == curr
    ensures forall i :: 0 <= i < |iov| && LastSmall(iov, page, i) ==> table[i] == curr'
    ensures ok ==> drv.live == old(drv.live)
    ensures ok && FreshStart(iov, page, last) ==> lbuf[..] == Splice(old(lbuf[..]), at, Packed(remote[..], iov))
    ensures drv.attaches == old(drv.attaches) + AttachesFor(iov, page, last, |iov|)
  {
    ghost var before := drv.live;
    ok, last', curr' := BuildAndCopy(drv, remote, iov, page, table, lbuf, at, last, curr);
    LastSmallHandle(iov, page, last, table[..], curr');
    if ok {
      ghost var live, t := drv.live, table[..];
      DetachAll(drv, table);
      AfterDetach(iov, page, last, curr, t, live, before, drv.live);
    }
  }

  /** The memo in front of an iteration. */
  function MemoBefore(v: seq<IoVec>, page: nat, j: nat): nat
    requires page > 0
  {
    if j == 0 then 0 else Memo(v, page, 0, |v|)
  }

  lemma MemoStable(v: seq<IoVec>, page: nat, j: nat)
    requires page > 0
    ensures Memo(v, page, MemoBefore(v, page, j), |v|) == MemoBefore(v, page, j + 1)
  {
    MemoForgets(v, page, MemoBefore(v, page, j), 0, |v|);
    MemoForgets(v, page, 0, 0, |v|);
  }

  /** The states of a receiver's memory at the end of its iterations. */
  ghost predicate AllViews(views: seq<seq<byte>>, view: seq<byte>) {
    forall j :: 0 <= j < |views| ==> views[j] == view
  }

  /** The tables of consecutive iterations: a slot filled from the memo of the iteration before holds the handle of
      that iteration's last small block, and NULL in the first iteration. */
  ghost predicate TablesLinked(v: seq<IoVec>, page: nat, tables: seq<seq<nat>>)
    requires page > 0
  {
    && (forall j :: 0 <= j < |tables| ==> |tables[j]| == |v|)
    && (forall i :: 0 <= i < |v| && |tables| > 0 && Stale(v, page, 0, i) ==> tables[0][i] == 0)
    && (forall j, i, k | 0 < j < |tables| && 0 <= i < |v| && Stale(v, page, MemoBefore(v, page, j), i)
                         && 0 <= k < |v| && LastSmall(v, page, k) :: tables[j][i] == tables[j - 1][k])
  }

  /** The handle that the memo names after the tables so far. */
  ghost predicate MemoHandle(v: seq<IoVec>, page: nat, tables: seq<seq<nat>>, curr: nat) {
    && (|tables| == 0 ==> curr == 0)
    && (|tables| > 0 ==> |tables[|tables| - 1]| == |v|)
    && (|tables| > 0 ==> forall k | 0 <= k < |v| && LastSmall(v, page, k) :: tables[|tables| - 1][k] == curr)
  }

  lemma LinkTable(v: seq<IoVec>, page: nat, tables: seq<seq<nat>>, curr: nat, t: seq<nat>, curr': nat)
    requires page > 0 && |t| == |v| && TablesLinked(v, page, tables) && MemoHandle(v, page, tables, curr)
    requires forall i :: 0 <= i < |v| && Stale(v, page, MemoBefore(v, page, |tables|), i) ==> t[i] == curr
    requires forall i :: 0 <= i < |v| && LastSmall(v, page, i) ==> t[i] == curr'
    ensures TablesLinked(v, page, tables + [t]) && MemoHandle(v, page, tables + [t], curr')
  {
  }

  /** benchmark_xpmem_nocache on a receiver. `ok` is false when some iteration reads a slot whose handle is
      not attached, or reads beyond an attachment. The contract says exactly when that happens, unless a
      driver that reuses addresses can hide a stale slot; it cannot happen when NocacheSafe holds. */
  method RunNocache(drv: Driver, remote: array<byte>, iov: seq<IoVec>, page: nat, lbuf: array<byte>, at: nat, iters: nat)
    returns (ok: bool, ghost views: seq<seq<byte>>, ghost tables: seq<seq<nat>>)
    requires drv.Valid() && page > 0 && lbuf != remote && Mapped(drv.live, remote.Length) && InMemory(iov, remote.Length)
    requires forall i :: 0 <= i < |iov| && Small(iov[i], page) ==> PageBase(iov[i].base, page) + page <= remote.Length
    requires at + Total(iov) <= lbuf.Length
    modifies drv, lbuf
    ensures drv.Valid() && Mapped(drv.live, remote.Length)
    ensures NocacheSafe(iov, page, iters) ==> ok
    ensures StaleShowsInRun(drv.reuse, iov, page) ==> (ok <==> NocacheSafe(iov, page, iters))
    ensures ok ==> |views| == iters && lbuf[..] == if iters > 0 then views[iters - 1] else old(lbuf[..])
    ensures NocacheSafe(iov, page, iters) ==> AllViews(views, Splice(old(lbuf[..]), at, Packed(remote[..], iov)))
    ensures ok ==> drv.live == old(drv.live)
    ensures TablesLinked(iov, page, tables) && (ok ==> |tables| == iters)
    ensures NocacheSafe(iov, page, iters) ==> drv.attaches == old(drv.attaches) + iters * AttachCalls(iov, page)
  {
    var table := new nat[|iov|];
    var last, curr := 0, 0;
    var j := 0;
    ghost var safe, view := NocacheSafe(iov, page, iters), Splice(lbuf[..], at, Packed(remote[..], iov));
    ok, views, tables := true, [], [];
    while j < iters
      invariant j <= iters && ok && drv.Valid() && Mapped(drv.live, remote.Length)
      invariant Dead(curr, drv.live, drv.used) && last == MemoBefore(iov, page, j)
      invariant StaleShowsInRun(drv.reuse, iov, page) ==> NocacheSafe(iov, page, j)
      invariant |views| == j && (j > 0 ==> lbuf[..] == views[j - 1])
      invariant drv.live == old(drv.live)
      invariant |tables| == j && TablesLinked(iov, page, tables) && MemoHandle(iov, page, tables, curr)
      invariant safe ==> AllViews(views, view)
      invariant j == 0 ==> lbuf[..] == old(lbuf[..])
      invariant safe ==> drv.attaches == old(drv.attaches) + j * AttachCalls(iov, page)
    {
      MemoStable(iov, page, j);
      MulStep(j, AttachCalls(iov, page));
      if safe {
        SpliceAgain(old(lbuf[..]), at, Packed(remote[..], iov), Packed(remote[..], iov));
        FreshStartsCostTheSame(iov, page, last, 0, |iov|);
      }
      ghost var curr0 := curr;
      ok, last, curr := NocacheIteration(drv, remote, iov, page, table, lbuf, at, last, curr);
      LinkTable(iov, page, tables, curr0, table[..], curr);
      tables := tables + [table[..]];
      if !ok {
        return;
      }
      views := views + [lbuf[..]];
      j := j + 1;
    }
  }

  // --------------------------------------------------------------------------------------------
  // The cached benchmark.

  /** An iteration that finds the table already built. */
  method CachedIteration(drv: Driver, remote: array<byte>, iov: seq<IoVec>, page: nat, table: array<nat>,
                         lbuf: array<byte>, at: nat, ghost before: map<nat, Segment>)
    returns (ok: bool)
    requires drv.Valid() && page > 0 && table.Length == |iov| && lbuf != remote
    requires PagesMapped(iov, page, remote.Length) && Mapped(drv.live, remote.Length)
    requires at + Total(iov) <= lbuf.Length
    requires TableInv(iov, page, 0, 0, table[..], |iov|, drv.live, before)
    modifies lbuf
    ensures FreshStart(iov, page, 0) ==> (ok <==> NoStraddle(iov, page))
    ensures ok && FreshStart(iov, page, 0) ==> lbuf[..] == Splice(old(lbuf[..]), at, Packed(remote[..], iov))
  {
    ghost var source := remote[..];
    if FreshStart(iov, page, 0) {
      FreshTable(iov, page, 0, 0, table[..], drv.live, before);
    }
    ok := CopyPhase(drv, remote, iov, page, table, lbuf, at);
    assert remote[..] == source;
  }

  /** benchmark_xpmem_cached on a receiver: attach in the first iteration, detach in the last. */
  method RunCached(drv: Driver, remote: array<byte>, iov: seq<IoVec>, page: nat, lbuf: array<byte>, at: nat, iters: nat)
    returns (ok: bool, ghost views: seq<seq<byte>>)
    requires drv.Valid() && page > 0 && lbuf != remote && Mapped(drv.live, remote.Length) && InMemory(iov, remote.Length)
    requires forall i :: 0 <= i < |iov| && Small(iov[i], page) ==> PageBase(iov[i].base, page) + page <= remote.Length
    requires at + Total(iov) <= lbuf.Length
    modifies drv, lbuf
    ensures drv.Valid() && Mapped(drv.live, remote.Length)
    ensures ok <==> CachedSafe(iov, page, iters)
    ensures ok ==> |views| == iters && lbuf[..] == if iters > 0 then views[iters - 1] else old(lbuf[..])
    ensures ok ==> AllViews(views, Splice(old(lbuf[..]), at, Packed(remote[..], iov)))
    ensures ok ==> drv.live == old(drv.live)
    ensures ok ==> drv.attaches == old(drv.attaches) + if iters > 0 then AttachCalls(iov, page) else 0
  {
    var table := new nat[|iov|];
    var j := 0;
    ghost var before := drv.live;
    ghost var view := Splice(lbuf[..], at, Packed(remote[..], iov));
    ok, views := true, [];
    while j < iters
      invariant j <= iters && ok && drv.Valid() && Mapped(drv.live, remote.Length)
      invariant j == 0 ==> drv.live == before && lbuf[..] == old(lbuf[..]) && drv.attaches == old(drv.attaches)
      invariant CachedSafe(iov, page, j)
      invariant |views| == j && (j > 0 ==> lbuf[..] == views[j - 1]) && AllViews(views, view)
      invariant 0 < j < iters ==> TableInv(iov, page, 0, 0, table[..], |iov|, drv.live, before)
      invariant j == iters ==> drv.live == before
      invariant j > 0 ==> drv.attaches == old(drv.attaches) + AttachCalls(iov, page)
    {
      SpliceAgain(old(lbuf[..]), at, Packed(remote[..], iov), Packed(remote[..], iov));
      if j == 0 {
        var last, curr;
        ok, last, curr := BuildAndCopy(drv, remote, iov, page, table, lbuf, at, 0, 0);
      } else {
        ok := CachedIteration(drv, remote, iov, page, table, lbuf, at, before);
      }
      if !ok {
        return;
      }
      if j + 1 == iters {
        ghost var live, t := drv.live, table[..];
        DetachAll(drv, table);
        AfterDetach(iov, page, 0, 0, t, live, before, drv.live);
      }
      views := views + [lbuf[..]];
      j := j + 1;
    }
  }

  /** The cached run refines the uncached one: wherever the uncached run is safe, both succeed, leave the same
      memory after every iteration and the same attachments, and the cached run attaches once per table
      instead of once per table and iteration. */
  method CachedRefinesUncached(drv: Driver, remote: array<byte>, iov: seq<IoVec>, page: nat, lbuf: array<byte>,
                               lbuf': array<byte>, at: nat, iters: nat)
    returns (ghost views: seq<seq<byte>>, ghost views': seq<seq<byte>>)
    requires drv.Valid() && page > 0 && lbuf != remote && lbuf' != remote && lbuf != lbuf'
    requires PagesMapped(iov, page, remote.Length) && Mapped(drv.live, remote.Length)
    requires at + Total(iov) <= lbuf.Length && lbuf[..] == lbuf'[..]
    requires NocacheSafe(iov, page, iters)
    modifies drv, lbuf, lbuf'
    ensures |views| == iters && views == views' && lbuf[..] == lbuf'[..]
    ensures drv.live == old(drv.live)
    ensures drv.attaches == old(drv.attaches) + if iters == 0 then 0 else (iters + 1) * AttachCalls(iov, page)
  {
    var ok, ok';
    MulStep(iters, AttachCalls(iov, page));
    ghost var tables;
    ok, views, tables := RunNocache(drv, remote, iov, page, lbuf, at, iters);
    ok', views' := RunCached(drv, remote, iov, page, lbuf', at, iters);
    assert views == views';
  }
}
