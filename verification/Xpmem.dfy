/** The XPMEM engines: attachments to the sender's memory, shared by all small blocks of a page through a
    one-entry memo (benchmark_xpmem_nocache, benchmark_xpmem_cached). */
module Xpmem {
  import opened Iovec
  import opened Pages

  /** The remote byte range behind an attachment. */
  datatype Segment = Segment(addr: nat, len: nat)

  lemma {:induction false} FreshHandle(s: set<nat>) returns (h: nat)
    ensures h != 0 && h !in s && forall x :: x in s ==> x < h
  {
    if s == {} {
      h := 1;
    } else {
      var x :| x in s;
      var g := FreshHandle(s - {x});
      h := if x < g then g else x + 1;
      assert forall y :: y in s ==> y == x || y in s - {x};
    }
  }

  /** The XPMEM driver as one process sees it. Handles are local addresses; 0 is NULL. With `reuse`, an
      attach may return the address of an attachment that has been detached. */
  class Driver {
    var live: map<nat, Segment>
    var used: set<nat>
    var attaches: nat
    const reuse: bool

    ghost predicate Valid()
      reads this
    {
      live.Keys <= used && 0 !in used
    }

    constructor (reuse: bool)
      ensures Valid() && live == map[] && attaches == 0 && this.reuse == reuse
    {
      live, used, attaches := map[], {}, 0;
      this.reuse := reuse;
    }

    method Attach(addr: nat, len: nat) returns (h: nat)
      requires Valid()
      modifies this
      ensures Valid() && h != 0 && h !in old(live) && (!reuse ==> h !in old(used))
      ensures live == old(live)[h := Segment(addr, len)] && used == old(used) + {h}
      ensures attaches == old(attaches) + 1
    {
      ghost var _ := FreshHandle(used);
      h :| h != 0 && h !in live && (!reuse ==> h !in used);
      live, used, attaches := live[h := Segment(addr, len)], used + {h}, attaches + 1;
    }

    /** Detaching twice, or detaching something that is not attached, changes nothing. */
    method Detach(h: nat)
      requires Valid()
      modifies this`live
      ensures Valid() && live == old(live) - {h}
    {
      live := live - {h};
    }
  }

  // --------------------------------------------------------------------------------------------
  // What the attach loop does, without handles.

  predicate Small(b: IoVec, page: nat) {
    b.len < page
  }

  /** The remote range block b is read through. */
  function SegmentOf(b: IoVec, page: nat): Segment
    requires page > 0
  {
    if Small(b, page) then Segment(PageBase(b.base, page), page) else Segment(b.base, b.len)
  }

  function PageOffset(b: IoVec, page: nat): nat
    requires page > 0
  {
    if Small(b, page) then b.base - PageBase(b.base, page) else 0
  }

  /** lastpagebase_addr in front of block i, if it was `last` in front of block 0. */
  function Memo(v: seq<IoVec>, page: nat, last: nat, i: nat): nat
    requires page > 0 && i <= |v|
  {
    if i == 0 then last
    else if Small(v[i - 1], page) then PageBase(v[i - 1].base, page)
    else Memo(v, page, last, i - 1)
  }

  /** Pages attached for the first i blocks. */
  function PageAttaches(v: seq<IoVec>, page: nat, last: nat, i: nat): nat
    requires page > 0 && i <= |v|
  {
    if i == 0 then 0
    else PageAttaches(v, page, last, i - 1) +
         if Small(v[i - 1], page) && Memo(v, page, last, i - 1) != PageBase(v[i - 1].base, page) then 1 else 0
  }

  function LargeBlocks(v: seq<IoVec>, page: nat, i: nat): nat
    requires i <= |v|
  {
    if i == 0 then 0 else LargeBlocks(v, page, i - 1) + if Small(v[i - 1], page) then 0 else 1
  }

  /** Slot i is filled from the memo that was there before the loop. */
  ghost predicate Stale(v: seq<IoVec>, page: nat, last: nat, i: nat)
    requires page > 0 && i < |v|
  {
    Small(v[i], page) && PageAttaches(v, page, last, i + 1) == 0
  }

  ghost predicate SlotGood(v: seq<IoVec>, page: nat, i: nat, h: nat, live: map<nat, Segment>, before: map<nat, Segment>)
    requires page > 0 && i < |v|
  {
    h in live && live[h] == SegmentOf(v[i], page) && h !in before
  }

  ghost predicate MadeFor(v: seq<IoVec>, page: nat, last: nat, t: seq<nat>, n: nat, h: nat)
    requires page > 0 && n <= |v| && n <= |t|
  {
    exists i :: 0 <= i < n && t[i] == h && !Stale(v, page, last, i)
  }

  /** The table after the first n blocks: stale slots hold the old memo handle, all others a live attachment
      of their own page or block, made since `before`; and there are no other new attachments. */
  ghost predicate TableInv(v: seq<IoVec>, page: nat, last: nat, curr: nat, t: seq<nat>, n: nat,
                           live: map<nat, Segment>, before: map<nat, Segment>)
    requires page > 0 && n <= |v| && n <= |t|
  {
    && (forall i :: 0 <= i < n ==>
          if Stale(v, page, last, i) then t[i] == curr else SlotGood(v, page, i, t[i], live, before))
    && (forall h :: h in before ==> h in live && live[h] == before[h])
    && (forall h :: h in live ==> h in before || MadeFor(v, page, last, t, n, h))
  }

  /** Small blocks between two page attaches share one handle. */
  ghost predicate Shares(v: seq<IoVec>, page: nat, last: nat, t: seq<nat>, n: nat)
    requires page > 0 && n <= |v| && n <= |t|
  {
    forall i, j | 0 <= i < j < n && Small(v[i], page) && Small(v[j], page) ::
      PageAttaches(v, page, last, i + 1) == PageAttaches(v, page, last, j + 1) ==> t[i] == t[j]
  }

  /** The memo after n blocks. */
  ghost predicate MemoInv(v: seq<IoVec>, page: nat, last: nat, curr: nat, n: nat, last': nat, curr': nat,
                          live: map<nat, Segment>, before: map<nat, Segment>)
    requires page > 0 && n <= |v|
  {
    && last' == Memo(v, page, last, n)
    && if PageAttaches(v, page, last, n) == 0 then curr' == curr
       else curr' in live && live[curr'] == Segment(last', page) && curr' !in before
  }

  ghost predicate HandleSharing(v: seq<IoVec>, page: nat, last: nat, t: seq<nat>, n: nat, curr': nat)
    requires page > 0 && n <= |v| && n <= |t|
  {
    forall i | 0 <= i < n && Small(v[i], page) ::
      PageAttaches(v, page, last, i + 1) == PageAttaches(v, page, last, n) ==> t[i] == curr'
  }

  /** Without an attach the memo does not move. */
  lemma {:induction false} NoAttachKeepsMemo(v: seq<IoVec>, page: nat, last: nat, i: nat)
    requires page > 0 && i <= |v| && PageAttaches(v, page, last, i) == 0
    ensures Memo(v, page, last, i) == last
  {
    if i == 0 {
    } else {
      NoAttachKeepsMemo(v, page, last, i - 1);
    }
  }

  /** Does block i make the loop attach a page? */
  predicate AttachesPage(v: seq<IoVec>, page: nat, last: nat, i: nat)
    requires page > 0 && i < |v|
  {
    Small(v[i], page) && Memo(v, page, last, i) != PageBase(v[i].base, page)
  }

  /** Attach calls for the first i blocks. */
  function AttachesFor(v: seq<IoVec>, page: nat, last: nat, i: nat): nat
    requires page > 0 && i <= |v|
  {
    PageAttaches(v, page, last, i) + LargeBlocks(v, page, i)
  }

  lemma AttachesForNext(v: seq<IoVec>, page: nat, last: nat, i: nat)
    requires page > 0 && i < |v|
    ensures AttachesFor(v, page, last, i + 1)
         == AttachesFor(v, page, last, i) + if Small(v[i], page) && !AttachesPage(v, page, last, i) then 0 else 1
  {
  }

  /** Everything the attach loop keeps. */
  ghost predicate BuildInv(v: seq<IoVec>, page: nat, last: nat, curr: nat, t: seq<nat>, n: nat, last': nat, curr': nat,
                           live: map<nat, Segment>, before: map<nat, Segment>)
  {
    && page > 0 && n <= |v| && |t| == |v|
    && TableInv(v, page, last, curr, t, n, live, before)
    && MemoInv(v, page, last, curr, n, last', curr', live, before)
    && Shares(v, page, last, t, n)
    && HandleSharing(v, page, last, t, n, curr')
  }

  lemma BuildStart(v: seq<IoVec>, page: nat, last: nat, curr: nat, t: seq<nat>, live: map<nat, Segment>)
    requires page > 0 && |t| == |v|
    ensures BuildInv(v, page, last, curr, t, 0, last, curr, live, live) && AttachesFor(v, page, last, 0) == 0
  {
  }

  lemma {:induction false} PageAttachesMonotone(v: seq<IoVec>, page: nat, last: nat, i: nat, j: nat)
    requires page > 0 && i <= j <= |v|
    ensures PageAttaches(v, page, last, i) <= PageAttaches(v, page, last, j)
  {
    if i == j {
    } else {
      PageAttachesMonotone(v, page, last, i, j - 1);
    }
  }

  lemma MadeForGrows(v: seq<IoVec>, page: nat, last: nat, t: seq<nat>, i: nat, h: nat)
    requires page > 0 && i < |v| && |t| == |v|
    ensures forall g :: MadeFor(v, page, last, t, i, g) ==> MadeFor(v, page, last, t[i := h], i + 1, g)
    ensures !Stale(v, page, last, i) ==> MadeFor(v, page, last, t[i := h], i + 1, h)
  {
    forall g | MadeFor(v, page, last, t, i, g)
      ensures MadeFor(v, page, last, t[i := h], i + 1, g)
    {
      var k :| 0 <= k < i && t[k] == g && !Stale(v, page, last, k);
      assert t[i := h][k] == g;
    }
    assert t[i := h][i] == h;
  }

  /** A small block on the memo's page reuses the memo's handle. */
  lemma ReuseStep(v: seq<IoVec>, page: nat, last: nat, curr: nat, t: seq<nat>, i: nat, m: nat, h: nat,
                  live: map<nat, Segment>, before: map<nat, Segment>)
    requires page > 0 && i < |v| && |t| == |v| && Small(v[i], page) && !AttachesPage(v, page, last, i)
    requires TableInv(v, page, last, curr, t, i, live, before) && MemoInv(v, page, last, curr, i, m, h, live, before)
    ensures TableInv(v, page, last, curr, t[i := h], i + 1, live, before)
    ensures MemoInv(v, page, last, curr, i + 1, m, h, live, before)
  {
    MadeForGrows(v, page, last, t, i, h);
  }

  /** A new attachment fills slot i. */
  lemma AttachStep(v: seq<IoVec>, page: nat, last: nat, curr: nat, t: seq<nat>, i: nat, h: nat,
                   live: map<nat, Segment>, before: map<nat, Segment>)
    requires page > 0 && i < |v| && |t| == |v| && (Small(v[i], page) ==> AttachesPage(v, page, last, i))
    requires TableInv(v, page, last, curr, t, i, live, before) && h !in live
    ensures TableInv(v, page, last, curr, t[i := h], i + 1, live[h := SegmentOf(v[i], page)], before)
  {
    MadeForGrows(v, page, last, t, i, h);
  }

  lemma SharesStep(v: seq<IoVec>, page: nat, last: nat, t: seq<nat>, i: nat, m: nat, h: nat, h': nat)
    requires page > 0 && i < |v| && |t| == |v|
    requires Shares(v, page, last, t, i) && HandleSharing(v, page, last, t, i, h)
    requires Small(v[i], page) ==> AttachesPage(v, page, last, i) || h' == h
    ensures Shares(v, page, last, t[i := h'], i + 1)
    ensures HandleSharing(v, page, last, t[i := h'], i + 1, if Small(v[i], page) then h' else h)
  {
    var t' := t[i := h'];
    forall k, l | 0 <= k < l < i + 1 && Small(v[k], page) && Small(v[l], page)
      ensures PageAttaches(v, page, last, k + 1) == PageAttaches(v, page, last, l + 1) ==> t'[k] == t'[l]
    {
      PageAttachesMonotone(v, page, last, k + 1, i);
    }
    forall k | 0 <= k < i + 1 && Small(v[k], page)
      ensures PageAttaches(v, page, last, k + 1) != PageAttaches(v, page, last, i + 1)
           || t'[k] == if Small(v[i], page) then h' else h
    {
      if k < i {
        PageAttachesMonotone(v, page, last, k + 1, i);
      }
    }
  }

  /** The loop body for one block, on values: what is attached, which handle the slot gets, the new memo. */
  ghost predicate BodyStep(b: IoVec, page: nat, m: nat, c: nat, live: map<nat, Segment>,
                           h: nat, m': nat, c': nat, live': map<nat, Segment>)
    requires page > 0
  {
    if Small(b, page) && m == PageBase(b.base, page) then h == c && m' == m && c' == c && live' == live
    else
      && h !in live && live' == live[h := SegmentOf(b, page)]
      && (if Small(b, page) then m' == PageBase(b.base, page) && c' == h else m' == m && c' == c)
  }

  lemma BuildStep(v: seq<IoVec>, page: nat, last: nat, curr: nat, t: seq<nat>, i: nat, m: nat, c: nat,
                  live: map<nat, Segment>, before: map<nat, Segment>, h: nat, m': nat, c': nat, live': map<nat, Segment>)
    requires BuildInv(v, page, last, curr, t, i, m, c, live, before) && i < |v|
    requires BodyStep(v[i], page, m, c, live, h, m', c', live')
    ensures BuildInv(v, page, last, curr, t[i := h], i + 1, m', c', live', before)
  {
    SharesStep(v, page, last, t, i, m, c, h);
    if Small(v[i], page) && m == PageBase(v[i].base, page) {
      ReuseStep(v, page, last, curr, t, i, m, c, live, before);
    } else {
      AttachStep(v, page, last, curr, t, i, h, live, before);
    }
  }

  // --------------------------------------------------------------------------------------------
  // The three phases of an iteration.

  /** Nothing that was handed out earlier has come back to life. */
  ghost predicate OnlyNewHandles(live: map<nat, Segment>, used: set<nat>, before: map<nat, Segment>) {
    forall h :: h in live && h in used ==> h in before
  }

  /** The body of the attach loop for one block: the handle for its slot, and the new memo. */
  method AttachFor(drv: Driver, b: IoVec, page: nat, last: nat, curr: nat) returns (h: nat, last': nat, curr': nat)
    requires drv.Valid() && page > 0
    modifies drv
    ensures drv.Valid() && old(drv.used) <= drv.used
    ensures BodyStep(b, page, last, curr, old(drv.live), h, last', curr', drv.live)
    ensures drv.attaches == old(drv.attaches) + if Small(b, page) && last == PageBase(b.base, page) then 0 else 1
    ensures !drv.reuse ==> OnlyNewHandles(drv.live, old(drv.used), old(drv.live))
  {
    last', curr' := last, curr;
    if b.len < page {
      var pagebase := PageBase(b.base, page);
      if last' != pagebase {
        last' := pagebase;
        curr' := drv.Attach(pagebase, page);
      }
      h := curr';
    } else {
      h := drv.Attach(b.base, b.len);
    }
  }

  method FillSlot(drv: Driver, iov: seq<IoVec>, page: nat, table: array<nat>, i: nat, last: nat, curr: nat,
                  ghost last0: nat, ghost curr0: nat, ghost before: map<nat, Segment>)
    returns (last': nat, curr': nat)
    requires drv.Valid() && page > 0 && i < |iov| == table.Length
    requires BuildInv(iov, page, last0, curr0, table[..], i, last, curr, drv.live, before)
    modifies drv, table
    ensures drv.Valid() && old(drv.used) <= drv.used
    ensures BuildInv(iov, page, last0, curr0, table[..], i + 1, last', curr', drv.live, before)
    ensures drv.attaches == old(drv.attaches) + if Small(iov[i], page) && !AttachesPage(iov, page, last0, i) then 0 else 1
    ensures !drv.reuse ==> OnlyNewHandles(drv.live, old(drv.used), old(drv.live))
  {
    ghost var t, live := table[..], drv.live;
    var h;
    h, last', curr' := AttachFor(drv, iov[i], page, last, curr);
    BuildStep(iov, page, last0, curr0, t, i, last, curr, live, before, h, last', curr', drv.live);
    table[i] := h;
    assert table[..] == t[i := h];
  }

  method BuildTable(drv: Driver, iov: seq<IoVec>, page: nat, table: array<nat>, last: nat, curr: nat)
    returns (last': nat, curr': nat)
    requires drv.Valid() && page > 0 && table.Length == |iov|
    modifies drv, table
    ensures drv.Valid() && old(drv.used) <= drv.used
    ensures !drv.reuse ==> OnlyNewHandles(drv.live, old(drv.used), old(drv.live))
    ensures BuildInv(iov, page, last, curr, table[..], |iov|, last', curr', drv.live, old(drv.live))
    ensures drv.attaches == old(drv.attaches) + AttachesFor(iov, page, last, |iov|)
  {
    last', curr' := last, curr;
    ghost var before, used, attaches := drv.live, drv.used, drv.attaches;
    BuildStart(iov, page, last, curr, table[..], before);
    var i := 0;
    while i < |iov|
      invariant i <= |iov| && drv.Valid() && used <= drv.used
      invariant !drv.reuse ==> OnlyNewHandles(drv.live, used, before)
      invariant BuildInv(iov, page, last, curr, table[..], i, last', curr', drv.live, before)
      invariant drv.attaches == attaches + AttachesFor(iov, page, last, i)
    {
      AttachesForNext(iov, page, last, i);
      last', curr' := FillSlot(drv, iov, page, table, i, last', curr', last, curr, before);
      i := i + 1;
    }
  }
}
