/** How exact the one-entry page memo is, and what it costs, on the lists the benchmarks use. */
module PageMemo {
  import opened Iovec
  import opened Arithmetic
  import opened Pages
  import opened Xpmem
  import opened XpmemEngines

  /** Later small blocks never lie on earlier pages. */
  ghost predicate PagesSorted(v: seq<IoVec>, page: nat)
    requires page > 0
  {
    forall i, j | 0 <= i < j < |v| && Small(v[i], page) && Small(v[j], page) ::
      PageBase(v[i].base, page) <= PageBase(v[j].base, page)
  }

  /** All small blocks lie on one page. */
  ghost predicate OnOnePage(v: seq<IoVec>, page: nat)
    requires page > 0
  {
    forall i, j | 0 <= i < j < |v| && Small(v[i], page) && Small(v[j], page) ::
      PageBase(v[i].base, page) == PageBase(v[j].base, page)
  }

  /** Between two small blocks of one page the memo stays on that page. */
  lemma {:induction false} MemoStays(v: seq<IoVec>, page: nat, last: nat, i: nat, j: nat, k: nat)
    requires page > 0 && i < k <= j + 1 <= |v| && PagesSorted(v, page)
    requires Small(v[i], page) && Small(v[j], page) && PageBase(v[i].base, page) == PageBase(v[j].base, page)
    ensures Memo(v, page, last, k) == PageBase(v[i].base, page)
    ensures PageAttaches(v, page, last, k) == PageAttaches(v, page, last, i + 1)
  {
    if k == i + 1 {
    } else {
      MemoStays(v, page, last, i, j, k - 1);
      if Small(v[k - 1], page) && k - 1 < j {
        assert PageBase(v[i].base, page) <= PageBase(v[k - 1].base, page) <= PageBase(v[j].base, page);
      }
    }
  }

  /** On a sorted list the one-entry memo does what a full map from pages to handles would do: two small
      blocks share a handle exactly if they share a page. Different pages have different handles because the
      attachments behind them differ; that needs live slots, or no second page. */
  lemma MemoIsPageMap(v: seq<IoVec>, page: nat, last: nat, curr: nat, t: seq<nat>, last': nat, curr': nat,
                      live: map<nat, Segment>, before: map<nat, Segment>, i: nat, j: nat)
    requires BuildInv(v, page, last, curr, t, |v|, last', curr', live, before)
    requires PagesSorted(v, page) && (FreshStart(v, page, last) || OnOnePage(v, page))
    requires i < j < |v| && Small(v[i], page) && Small(v[j], page)
    ensures t[i] == t[j] <==> PageBase(v[i].base, page) == PageBase(v[j].base, page)
  {
    if PageBase(v[i].base, page) == PageBase(v[j].base, page) {
      MemoStays(v, page, last, i, j, j + 1);
      MemoStays(v, page, last, i, j, i + 1);
    } else {
      FreshTable(v, page, last, curr, t, live, before);
      assert SlotGood(v, page, i, t[i], live, before) && SlotGood(v, page, j, t[j], live, before);
    }
  }

  /** Whatever handles the driver picks, the finished table is a map from pages to handles. */
  ghost predicate MemoExact(v: seq<IoVec>, page: nat, last: nat)
    requires page > 0
  {
    forall curr, t, last', curr', live, before | BuildInv(v, page, last, curr, t, |v|, last', curr', live, before) ::
      forall i, j | 0 <= i < j < |v| && Small(v[i], page) && Small(v[j], page) ::
        t[i] == t[j] <==> PageBase(v[i].base, page) == PageBase(v[j].base, page)
  }

  lemma SortedMemoExact(v: seq<IoVec>, page: nat, last: nat)
    requires page > 0 && PagesSorted(v, page) && (FreshStart(v, page, last) || OnOnePage(v, page))
    ensures MemoExact(v, page, last)
  {
    forall curr, t, last', curr', live, before, i, j
      | BuildInv(v, page, last, curr, t, |v|, last', curr', live, before)
        && 0 <= i < j < |v| && Small(v[i], page) && Small(v[j], page)
      ensures t[i] == t[j] <==> PageBase(v[i].base, page) == PageBase(v[j].base, page)
    {
      MemoIsPageMap(v, page, last, curr, t, last', curr', live, before, i, j);
    }
  }

  // --------------------------------------------------------------------------------------------
  // Consecutive blocks of one size in a page-aligned buffer.

  lemma SumQuotient(base: nat, x: nat, page: nat)
    requires page > 0 && base % page == 0
    ensures (base + x) % page == x % page && (base + x) - x % page == base + (x / page) * page
  {
    var a, b, r := base / page, x / page, x % page;
    QuotientForm(base, page);
    QuotientForm(x, page);
    assert (a + b) * page == a * page + b * page;
    DivisionUnique(base + x, page, a + b, r);
  }

  lemma PageOfSum(base: nat, x: nat, page: nat)
    requires IsPageSize(page) && page > 0 && base % page == 0
    ensures PageBase(base + x, page) == base + (x / page) * page
    ensures base + x - PageBase(base + x, page) == x % page
  {
    PageBaseIs(base + x, page);
    SumQuotient(base, x, page);
  }

  lemma UniformPageOffset(base: nat, bs: nat, n: nat, page: nat, i: nat, x: nat)
    requires IsPageSize(page) && page > 0 && base % page == 0 && i < n && bs < page && x == i * bs
    ensures PageOffset(Uniform(base, bs, n)[i], page) == x % page
  {
    PageOfSum(base, x, page);
  }

  lemma {:induction false} UniformLarge(base: nat, bs: nat, n: nat, page: nat, i: nat)
    requires page > 0 && bs >= page && i <= n
    ensures FirstSmall(Uniform(base, bs, n), page, 0) == n
    ensures AttachesFor(Uniform(base, bs, n), page, 0, i) == i
  {
    if i == 0 {
    } else {
      UniformLarge(base, bs, n, page, i - 1);
    }
  }

  lemma UniformPageAt(base: nat, bs: nat, n: nat, page: nat, i: nat, x: nat, d: nat)
    requires IsPageSize(page) && page > 0 && base % page == 0 && i < n && x == i * bs && x / page == d
    ensures PageBase(Uniform(base, bs, n)[i].base, page) == base + d * page
  {
    PageOfSum(base, x, page);
  }

  lemma PageOfBlock(bs: nat, page: nat, q: nat, i: nat)
    requires bs > 0 && page == q * bs && q > 0
    ensures page > 0 && (i * bs) / page == i / q && (i * bs) % page == (i % q) * bs <= page - bs
  {
    var a, r := i / q, i % q;
    assert i == a * q + r;
    assert i * bs == (a * q) * bs + r * bs;
    assert (a * q) * bs == a * (q * bs);
    MulStep(r, bs);
    MulMonotone(r + 1, q, bs);
    DivisionUnique(i * bs, page, a, r * bs);
  }

  lemma FirstPage(x: nat, page: nat)
    requires page > 0
    ensures (x / page) * page == 0 <==> x < page
  {
    QuotientForm(x, page);
    if x < page {
      DivisionUnique(x, page, 0, x);
    }
  }

  /** A block smaller than a page starts on the page of the one before it, or on the next. */
  lemma NextPage(x: nat, bs: nat, page: nat)
    requires 0 < bs < page
    ensures (x + bs) / page == x / page || (x + bs) / page == x / page + 1
    ensures ((x + bs) / page) * page == (x / page) * page <==> (x + bs) / page == x / page
  {
    var a, r := x / page, x % page;
    assert x == a * page + r;
    MulStep(a, page);
    if r + bs < page {
      DivisionUnique(x + bs, page, a, r + bs);
    } else {
      DivisionUnique(x + bs, page, a + 1, r + bs - page);
    }
  }

  /** ps[i] is the page of block i and ds[i] counts the page changes up to it. */
  ghost predicate PageWalk(v: seq<IoVec>, page: nat, ps: seq<nat>, ds: seq<nat>)
    requires page > 0
  {
    && |v| == |ps| == |ds|
    && (forall i :: 0 <= i < |v| ==> Small(v[i], page) && PageBase(v[i].base, page) == ps[i])
    && (|v| > 0 ==> ps[0] > 0 && ds[0] == 0)
    && (forall i :: 0 < i < |v| ==> ds[i] == ds[i - 1] + if ps[i] == ps[i - 1] then 0 else 1)
  }

  lemma {:induction false} WalkAttaches(v: seq<IoVec>, page: nat, ps: seq<nat>, ds: seq<nat>, i: nat)
    requires page > 0 && PageWalk(v, page, ps, ds) && i < |v|
    ensures AttachesFor(v, page, 0, i + 1) == ds[i] + 1
  {
    AttachesForNext(v, page, 0, i);
    if i == 0 {
      assert PageBase(v[0].base, page) == ps[0];
    } else {
      WalkAttaches(v, page, ps, ds, i - 1);
    }
  }

  /** The number of block i's page in the program's list, counted from the start of the buffer; and the page. */
  function WalkCount(bs: nat, page: nat, i: nat): nat
    requires page > 0
  {
    (i * bs) / page
  }

  function WalkPage(base: nat, bs: nat, page: nat, i: nat): nat
    requires page > 0
  {
    base + WalkCount(bs, page, i) * page
  }

  lemma WalkStart(base: nat, bs: nat, page: nat)
    requires page > 0
    ensures WalkCount(bs, page, 0) == 0 && WalkPage(base, bs, page, 0) == base
  {
    DivisionUnique(0, page, 0, 0);
  }

  lemma WalkStep(base: nat, bs: nat, page: nat, i: nat)
    requires 0 < bs < page && i > 0
    ensures WalkPage(base, bs, page, i) == WalkPage(base, bs, page, i - 1) ==>
              WalkCount(bs, page, i) == WalkCount(bs, page, i - 1)
    ensures WalkPage(base, bs, page, i) != WalkPage(base, bs, page, i - 1) ==>
              WalkCount(bs, page, i) == WalkCount(bs, page, i - 1) + 1
  {
    MulStep(i - 1, bs);
    NextPage((i - 1) * bs, bs, page);
  }

  lemma WalkIs(base: nat, bs: nat, page: nat, i: nat, x: nat, d: nat)
    requires page > 0 && x == i * bs && x / page == d
    ensures WalkCount(bs, page, i) == d && WalkPage(base, bs, page, i) == base + d * page
  {
  }

  lemma UniformWalk(base: nat, bs: nat, n: nat, page: nat, ps: seq<nat>, ds: seq<nat>)
    requires IsPageSize(page) && page > 0 && base % page == 0 && base > 0 && 0 < bs < page
    requires |ps| == |ds| == n
    requires forall i :: 0 <= i < n ==> ps[i] == WalkPage(base, bs, page, i)
    requires forall i :: 0 <= i < n ==> ds[i] == WalkCount(bs, page, i)
    ensures PageWalk(Uniform(base, bs, n), page, ps, ds)
  {
    forall i | 0 <= i < n
      ensures PageBase(Uniform(base, bs, n)[i].base, page) == ps[i]
      ensures i == 0 ==> ps[i] > 0 && ds[i] == 0
      ensures i > 0 ==> ds[i] == ds[i - 1] + if ps[i] == ps[i - 1] then 0 else 1
    {
      var x := i * bs;
      var d := x / page;
      WalkIs(base, bs, page, i, x, d);
      UniformPageAt(base, bs, n, page, i, x, d);
      if i == 0 {
        WalkStart(base, bs, page);
      } else {
        WalkStep(base, bs, page, i);
      }
    }
  }

  /** Blocks smaller than a page, straddling or not: one attach call for each page on which a block starts. */
  lemma AttachCallsExact(base: nat, bs: nat, n: nat, page: nat)
    requires IsPageSize(page) && page > 0 && base % page == 0 && base > 0 && 0 < bs < page && n > 0
    ensures AttachCalls(Uniform(base, bs, n), page) == ((n - 1) * bs) / page + 1
  {
    var ps := seq(n, (i: nat) => WalkPage(base, bs, page, i));
    var ds := seq(n, (i: nat) => WalkCount(bs, page, i));
    UniformWalk(base, bs, n, page, ps, ds);
    WalkAttaches(Uniform(base, bs, n), page, ps, ds, n - 1);
  }

  lemma RoundUp(x: nat, bs: nat, page: nat, a: nat, r: nat)
    requires page > 0 && x / page == a && x % page == r <= page - bs && bs > 0
    ensures (x + bs + page - 1) / page == a + 1
  {
    QuotientForm(x, page);
    MulStep(a, page);
    DivisionUnique(x + bs + page - 1, page, a + 1, r + bs - 1);
  }

  lemma PagesCovered(bs: nat, n: nat, page: nat, q: nat)
    requires 0 < bs <= page && page == q * bs && q > 0 && n > 0
    ensures (n * bs + page - 1) / page == (n - 1) / q + 1
  {
    PageOfBlock(bs, page, q, n - 1);
    MulStep(n - 1, bs);
    RoundUp((n - 1) * bs, bs, page, (n - 1) / q, ((n - 1) % q) * bs);
  }

  /** The number of attach calls for a table is the number of pages the buffer covers: ceil(n * bs / page). */
  lemma AttachCallsIsPageCount(base: nat, bs: nat, n: nat, page: nat)
    requires IsPageSize(page) && page > 0 && base % page == 0 && base > 0
    requires 0 < bs < page && page % bs == 0 && n > 0
    ensures AttachCalls(Uniform(base, bs, n), page) == (n * bs + page - 1) / page
  {
    var q := page / bs;
    QuotientForm(page, bs);
    AttachCallsExact(base, bs, n, page);
    PageOfBlock(bs, page, q, n - 1);
    PagesCovered(bs, n, page, q);
  }

  /** Blocks of at least a page are attached one by one. */
  lemma AttachCallsOfLargeBlocks(base: nat, bs: nat, n: nat, page: nat)
    requires page > 0 && bs >= page
    ensures AttachCalls(Uniform(base, bs, n), page) == n
  {
    UniformLarge(base, bs, n, page, n);
  }

  // --------------------------------------------------------------------------------------------
  // When the uncached run is safe, in terms of sizes.

  predicate SizesSafe(bs: nat, n: nat, page: nat)
    requires bs > 0
  {
    bs >= page || (page % bs == 0 && n * bs >= page + bs)
  }

  /** No small block of the program's list straddles a page exactly if the blocks are at least a page, or divide
      it, or all fit in one. */
  lemma NoStraddleSizes(base: nat, bs: nat, n: nat, page: nat)
    requires IsPageSize(page) && page > 0 && base % page == 0 && bs > 0
    ensures NoStraddle(Uniform(base, bs, n), page) <==> bs >= page || page % bs == 0 || n * bs <= page
  {
    var v := Uniform(base, bs, n);
    if bs < page {
      forall i | 0 <= i < n
        ensures PageOffset(v[i], page) == (i * bs) % page
      {
        UniformPageOffset(base, bs, n, page, i, i * bs);
      }
      if page % bs == 0 {
        var q := page / bs;
        QuotientForm(page, bs);
        forall i | 0 <= i < n
          ensures PageOffset(v[i], page) + v[i].len <= page
        {
          PageOfBlock(bs, page, q, i);
        }
      } else if n * bs <= page {
        forall i | 0 <= i < n
          ensures PageOffset(v[i], page) + v[i].len <= page
        {
          MulStep(i, bs);
          MulMonotone(i + 1, n, bs);
          DivisionUnique(i * bs, page, 0, i * bs);
        }
      } else {
        var i := page / bs;
        QuotientForm(page, bs);
        if i >= n {
          MulMonotone(n, i, bs);
        }
        DivisionUnique(i * bs, page, 0, i * bs);
        assert PageOffset(v[i], page) + v[i].len > page;
      }
    }
  }

  lemma SmallAtBothEnds(v: seq<IoVec>, page: nat, last: nat)
    requires page > 0 && |v| > 0 && Small(v[0], page) && Small(v[|v| - 1], page)
    ensures FreshStart(v, page, last) <==> PageBase(v[0].base, page) != last
    ensures Memo(v, page, 0, |v|) == PageBase(v[|v| - 1].base, page)
  {
    assert FirstSmall(v, page, 0) == 0;
  }

  lemma FreshBetweenEnds(v: seq<IoVec>, page: nat, first: nat)
    requires page > 0 && |v| > 0 && Small(v[0], page) && Small(v[|v| - 1], page)
    requires PageBase(v[0].base, page) == first > 0
    ensures FreshStart(v, page, 0)
    ensures FreshStart(v, page, Memo(v, page, 0, |v|)) <==> PageBase(v[|v| - 1].base, page) != first
  {
    SmallAtBothEnds(v, page, 0);
    SmallAtBothEnds(v, page, Memo(v, page, 0, |v|));
  }

  lemma PageBeyond(base: nat, page: nat, x: nat, p: nat)
    requires IsPageSize(page) && page > 0 && base % page == 0 && p == PageBase(base + x, page)
    ensures p != base <==> x >= page
  {
    PageOfSum(base, x, page);
    FirstPage(x, page);
  }

  lemma EndPage(base: nat, bs: nat, n: nat, page: nat, x: nat)
    requires IsPageSize(page) && page > 0 && base % page == 0 && n > 0 && x == (n - 1) * bs
    ensures PageBase(Uniform(base, bs, n)[n - 1].base, page) != base <==> x >= page
  {
    PageBeyond(base, page, x, PageBase(base + x, page));
  }

  lemma StartPage(base: nat, bs: nat, n: nat, page: nat)
    requires IsPageSize(page) && page > 0 && base % page == 0 && n > 0
    ensures PageBase(Uniform(base, bs, n)[0].base, page) == base
  {
    DivisionUnique(0, page, 0, 0);
    UniformPageAt(base, bs, n, page, 0, 0, 0);
  }

  lemma EndPages(base: nat, bs: nat, n: nat, page: nat, x: nat)
    requires IsPageSize(page) && page > 0 && base % page == 0 && n > 0 && x == (n - 1) * bs
    ensures PageBase(Uniform(base, bs, n)[0].base, page) == base
    ensures PageBase(Uniform(base, bs, n)[n - 1].base, page) != base <==> x >= page
  {
    StartPage(base, bs, n, page);
    EndPage(base, bs, n, page, x);
  }

  /** The last block lies on the first page exactly if all earlier blocks fit there. */
  lemma UniformMemo(base: nat, bs: nat, n: nat, page: nat)
    requires IsPageSize(page) && page > 0 && base % page == 0 && base > 0 && 0 < bs < page && n > 0
    ensures FreshStart(Uniform(base, bs, n), page, 0)
    ensures FreshStart(Uniform(base, bs, n), page, Memo(Uniform(base, bs, n), page, 0, n)) <==> (n - 1) * bs >= page
  {
    EndPages(base, bs, n, page, (n - 1) * bs);
    FreshBetweenEnds(Uniform(base, bs, n), page, base);
  }

  /** Page bases of consecutive blocks are monotone. */
  lemma UniformSorted(base: nat, bs: nat, n: nat, page: nat)
    requires IsPageSize(page) && page > 0
    ensures PagesSorted(Uniform(base, bs, n), page)
  {
    var v := Uniform(base, bs, n);
    forall i, j | 0 <= i < j < n
      ensures PageBase(v[i].base, page) <= PageBase(v[j].base, page)
    {
      MulMonotone(i, j, bs);
      PageBaseIs(v[i].base, page);
      PageBaseGreatest(v[i].base, page, 0);
      PageBaseGreatest(v[j].base, page, v[i].base / page);
    }
  }

  /** The cached run only needs that no block straddles a page. */
  predicate CachedSizesSafe(bs: nat, n: nat, page: nat)
    requires bs > 0
  {
    bs >= page || page % bs == 0 || n * bs <= page
  }

  /** The attach calls for one table, in sizes: one for each block of at least a page, or one for each page that
      the buffer covers. */
  function TableCalls(bs: nat, n: nat, page: nat): nat
    requires page > 0
  {
    if bs >= page then n else (n * bs + page - 1) / page
  }

  lemma OnePageCovered(bs: nat, n: nat, page: nat)
    requires 0 < bs < page && n > 0 && n * bs <= page
    ensures ((n - 1) * bs) / page == 0 && (n * bs + page - 1) / page == 1
  {
    MulStep(n - 1, bs);
    var x, y := (n - 1) * bs, n * bs;
    DivisionUnique(x, page, 0, x);
    DivisionUnique(y + page - 1, page, 1, y - 1);
  }

  lemma TableCallsOfSizes(base: nat, bs: nat, n: nat, page: nat)
    requires IsPageSize(page) && page > 0 && base % page == 0 && base > 0 && bs > 0 && n > 0
    requires CachedSizesSafe(bs, n, page)
    ensures AttachCalls(Uniform(base, bs, n), page) == TableCalls(bs, n, page)
  {
    if bs >= page {
      AttachCallsOfLargeBlocks(base, bs, n, page);
    } else if page % bs == 0 {
      AttachCallsIsPageCount(base, bs, n, page);
    } else {
      AttachCallsExact(base, bs, n, page);
      OnePageCovered(bs, n, page);
    }
  }

  /** The cached XPMEM run on n blocks of bs bytes in a page-aligned buffer is safe exactly if the sizes are. */
  lemma CachedSafeSizes(base: nat, bs: nat, n: nat, page: nat, iters: nat)
    requires IsPageSize(page) && page > 0 && base % page == 0 && base > 0 && bs > 0 && n > 0 && iters > 0
    ensures CachedSafe(Uniform(base, bs, n), page, iters) <==> CachedSizesSafe(bs, n, page)
  {
    NoStraddleSizes(base, bs, n, page);
    if bs < page {
      UniformMemo(base, bs, n, page);
    } else {
      UniformLarge(base, bs, n, page, n);
    }
  }

  /** With at least two iterations, the uncached XPMEM run on n blocks of bs bytes in a page-aligned buffer is
      safe exactly if the sizes are. */
  lemma NocacheSafeSizes(base: nat, bs: nat, n: nat, page: nat, iters: nat)
    requires IsPageSize(page) && page > 0 && base % page == 0 && base > 0 && bs > 0 && n > 0 && iters > 1
    ensures NocacheSafe(Uniform(base, bs, n), page, iters) <==> SizesSafe(bs, n, page)
    ensures SizesSafe(bs, n, page) ==> CachedSafe(Uniform(base, bs, n), page, iters)
  {
    NoStraddleSizes(base, bs, n, page);
    MulStep(n - 1, bs);
    if bs < page {
      UniformMemo(base, bs, n, page);
    } else {
      UniformLarge(base, bs, n, page, n);
    }
  }

  lemma {:induction false} OnePageNoAttach(v: seq<IoVec>, page: nat, last: nat, i: nat)
    requires page > 0 && i <= |v|
    requires forall k :: 0 <= k < |v| ==> Small(v[k], page) && PageBase(v[k].base, page) == last
    ensures AttachesFor(v, page, last, i) == 0 && Memo(v, page, last, i) == last
  {
    if i == 0 {
    } else {
      OnePageNoAttach(v, page, last, i - 1);
    }
  }

  /** Consecutive small blocks that end before the second page. */
  lemma UniformFirstPage(base: nat, bs: nat, n: nat, page: nat, i: nat)
    requires IsPageSize(page) && page > 0 && base % page == 0 && i < n && (n - 1) * bs < page
    ensures PageBase(Uniform(base, bs, n)[i].base, page) == base
  {
    MulMonotone(i, n - 1, bs);
    DivisionUnique(i * bs, page, 0, i * bs);
    UniformPageAt(base, bs, n, page, i, i * bs, 0);
  }

  /** On the program's list the memo is exact in every iteration of both engines, with no condition on sizes:
      a start that is not fresh happens only when all blocks lie on one page. */
  lemma UniformMemoExact(base: nat, bs: nat, n: nat, page: nat)
    requires IsPageSize(page) && page > 0 && base % page == 0 && base > 0 && bs > 0 && n > 0
    ensures MemoExact(Uniform(base, bs, n), page, 0)
    ensures MemoExact(Uniform(base, bs, n), page, Memo(Uniform(base, bs, n), page, 0, n))
  {
    var v := Uniform(base, bs, n);
    UniformSorted(base, bs, n, page);
    if bs >= page {
      UniformLarge(base, bs, n, page, n);
    } else {
      UniformMemo(base, bs, n, page);
      if (n - 1) * bs < page {
        forall i | 0 <= i < n
          ensures PageBase(v[i].base, page) == base
        {
          UniformFirstPage(base, bs, n, page, i);
        }
      }
    }
    SortedMemoExact(v, page, 0);
    SortedMemoExact(v, page, Memo(v, page, 0, n));
  }

  /** In a consecutive list of small blocks a stale slot means that all blocks share one page, so the loop
      attaches nothing and even a driver that reuses addresses cannot hide it. */
  lemma UniformStaleShows(reuse: bool, base: nat, bs: nat, n: nat, page: nat)
    requires IsPageSize(page) && page > 0 && base % page == 0 && base > 0 && bs > 0 && n > 0
    ensures StaleShowsInRun(reuse, Uniform(base, bs, n), page)
  {
    var v := Uniform(base, bs, n);
    if bs >= page {
      UniformLarge(base, bs, n, page, n);
    } else {
      UniformMemo(base, bs, n, page);
      if (n - 1) * bs < page {
        forall k | 0 <= k < n
          ensures PageBase(v[k].base, page) == base
        {
          UniformFirstPage(base, bs, n, page, k);
        }
        SmallAtBothEnds(v, page, 0);
        OnePageNoAttach(v, page, base, n);
      }
    }
  }

  /** A buffer of one page in smaller blocks passes every size assert of the program, yet the second
      iteration of the uncached run reads through a detached handle. This happens where a page is as large as
      the pipeline depth. */
  lemma OnePageBufferIsUnsafe(base: nat, bs: nat, page: nat, iters: nat)
    requires IsPageSize(page) && page > 0 && base % page == 0 && base > 0 && 0 < bs < page && page % bs == 0 && iters > 1
    ensures !NocacheSafe(Uniform(base, bs, page / bs), page, iters)
    ensures CachedSafe(Uniform(base, bs, page / bs), page, iters)
    ensures Total(Uniform(base, bs, page / bs)) == page
  {
    var n := page / bs;
    QuotientForm(page, bs);
    UniformOffset(base, bs, n, n);
    NocacheSafeSizes(base, bs, n, page, iters);
    NoStraddleSizes(base, bs, n, page);
    UniformMemo(base, bs, n, page);
  }
}
