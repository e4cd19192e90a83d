// Requests that are served past the end of a pool: the test of pool_find_block looks at
// one page, and pages past the metadata read as not waste. A pool serves such a request
// in some state exactly when a block for it can start that far up.
module Padding {
  import opened Options
  import opened Dyadic
  import opened Tiling
  import opened Buddy
  import opened BuddyPool

  /** The last page below `limit` where a block of order `k` can start. */
  method LastStart(limit: nat, k: nat) returns (last: nat)
    requires 0 < limit
    ensures Aligned(last, k) && last < limit <= last + Pow2(k)
    ensures forall i: nat | Aligned(i, k) && i < limit :: i <= last
  {
    last := 0;
    ZeroAligned(k);
    while last + Pow2(k) < limit
      invariant Aligned(last, k) && last < limit
      decreases limit - last
    {
      NextAligned(last, k);
      last := last + Pow2(k);
    }
    forall i: nat | Aligned(i, k) && i < limit ensures i <= last {
      if i > last {
        SameOrderOverlap(i, last, k);
      }
    }
  }

  /** One page is live at each place below `last` where a block of order `k` can start, and nothing else. */
  ghost predicate OnePageEach(live: Tile, k: nat, last: nat) {
    && SinglePages(live)
    && forall i: nat :: i in live <==> Aligned(i, k) && i < last
  }

  /** Then a block of that order can only be cut from a region that starts at `last`. */
  lemma OnlyTheLastIsLeft(p: Pool, n: nat, last: nat, i: nat, a: nat)
    requires p.Valid() && OnePageEach(p.LiveMap(), OrderFor(n), last)
    requires Aligned(last, OrderFor(n)) && p.WasteStart() <= last + Pow2(OrderFor(n))
    requires p.Candidate(p.LiveMap(), i, a, n)
    ensures i == last
  {
    var k, live := OrderFor(n), p.LiveMap();
    AlignedBelow(i, k, a);
    assert i < last ==> i in live;
    if i > last {
      SameOrderOverlap(i, last, k);
    }
  }

  /** The region that starts at `last` is free, and as large as a block of that order at least. */
  lemma RegionAtLast(p: Pool, k: nat, last: nat) returns (a: nat)
    requires p.Valid() && OnePageEach(p.LiveMap(), k, last) && k <= p.maxOrder
    requires Aligned(last, k) && last < p.WasteStart()
    ensures k <= a && MaximalFree(p.maxOrder, p.LiveMap(), last, a)
  {
    assert p.View().Has(Blocks) && p.View().Has(Aspect.Sizes);
    LiveInside(p.View());
    var live := p.LiveMap();
    var h := HeadOf(p.maxOrder, p.tile, last);
    forall x: nat | x in live ensures !(x <= last < End(p.tile, x)) {
      assert live[x] == 0 && x < last;
    }
    a := p.tile[h];
    FreeBlockIsMaximal(p.maxOrder, p.tile, p.free, h);
    assert live == LiveTile(p.tile, p.free);
    ClearUpFromLast(live, k, last);
    MaximalIsLarge(p.maxOrder, live, last, k, h, a);
    AlignedBelow(h, k, a);
    assert h < last ==> h in live;
  }

  /** A maximal free region at the start of a free one is no smaller. */
  lemma MaximalIsLarge(m: nat, live: Tile, last: nat, k: nat, h: nat, a: nat)
    requires MaximalFree(m, live, h, a) && h <= last < h + Pow2(a)
    requires Aligned(last, k) && ClearOf(live, last, k) && k <= m
    ensures k <= a
  {
    if a < k {
      HeadInside(last, k, h, a);
      ParentInside(h, a, last, k);
    }
  }

  lemma ClearUpFromLast(live: Tile, k: nat, last: nat)
    requires OnePageEach(live, k, last)
    ensures ClearOf(live, last, k)
  {
  }

  /** A smaller block that holds the first page of (last, k) lies inside it. */
  lemma HeadInside(last: nat, k: nat, h: nat, a: nat)
    requires a < k && Aligned(last, k) && Aligned(h, a) && h <= last < h + Pow2(a)
    ensures h == last
  {
    AlignedBelow(last, a, k);
    SameOrderOverlap(last, h, a);
  }

  lemma ParentInside(h: nat, a: nat, last: nat, k: nat)
    requires a < k && h == last && Aligned(last, k)
    ensures Parent(h, a) == last && Pow2(a + 1) <= Pow2(k)
  {
    AlignedBelow(last, a + 1, k);
    Pow2Monotone(a + 1, k);
  }

  /** With one live page in each block below `last`, a block's worth of pages is left besides. */
  lemma {:induction false} FewAreLive(tile: Tile, live: set<nat>, k: nat, last: nat, x: nat)
    requires forall i | i in live && i in tile :: tile[i] == 0 && Aligned(i, k) && i < last
    requires last >= Pow2(k)
    ensures PagesBelow(tile, live, x) <=
            if x == 0 then 0 else if x <= Pow2(k) then 1 else if x <= last then x - Pow2(k) + 1 else last - Pow2(k) + 1
  {
    if x > 0 {
      FewAreLive(tile, live, k, last, x - 1);
      if 0 < x - 1 < Pow2(k) && x - 1 in live && x - 1 in tile {
        ZeroAligned(k);
        SameOrderOverlap(x - 1, 0, k);
      }
    }
  }

  /** Enough pages are counted free, then. */
  lemma EnoughLeft(p: Pool, n: nat, last: nat)
    requires p.Valid() && OnePageEach(p.LiveMap(), OrderFor(n), last)
    requires Aligned(last, OrderFor(n)) && 0 < last < p.WasteStart()
    ensures n <= p.freePages
  {
    var k := OrderFor(n);
    assert p.View().Has(Aspect.Sizes) && p.View().Has(Blocks);
    LiveInside(p.View());
    ZeroAligned(k);
    if last < Pow2(k) {
      SameOrderOverlap(last, 0, k);
    }
    forall i | i in p.live && i in p.tile ensures p.tile[i] == 0 && Aligned(i, k) && i < last {
      assert i in p.LiveMap() && p.LiveMap()[i] == 0;
    }
    FewAreLive(p.tile, p.live, k, last, Pow2(p.maxOrder));
    Pow2Positive(p.maxOrder);
  }

  lemma Pow2Positive(k: nat)
    ensures Pow2(k) >= 1
  {
  }

  /** Every page below the waste handed out, one at a time. */
  method TakeSingles(p: Pool)
    requires p.Valid() && p.LiveMap() == map[]
    modifies p`tile, p`live, p`free, p`freePages, p`maxOrderFree, p.order, p.lists, p.lists.next, p.lists.prev,
             p.lists.inList
    ensures p.Valid() && SinglePages(p.LiveMap())
    ensures forall i: nat :: i in p.LiveMap() <==> i < p.WasteStart()
  {
    var more := true;
    while more
      invariant p.Valid() && SinglePages(p.LiveMap())
      invariant !more ==> forall i: nat | i < p.WasteStart() :: i in p.LiveMap()
      decreases p.freePages, more
    {
      p.SinglePagesLeave();
      OneIsOne();
      var page := p.Allocate(PAGE_SIZE);
      more := page.Some?;
    }
    p.LiveBelow();
  }

  lemma OneIsOne()
    ensures PagesFor(PAGE_SIZE) == 1 && OrderFor(1) == 0 && Pow2(0) == 1
  {
  }

  lemma Bytes(n: nat)
    ensures PagesFor(n * PAGE_SIZE) == n
  {
  }

  /** All given back but one page in each block of order `k` below `last`. */
  method ThinOut(p: Pool, k: nat, last: nat, limit: nat)
    requires p.Valid() && SinglePages(p.LiveMap()) && limit == p.WasteStart()
    requires forall i: nat :: i in p.LiveMap() <==> i < limit
    requires last < limit
    modifies p`tile, p`live, p`free, p`freePages, p`maxOrderFree, p.order, p.lists, p.lists.next, p.lists.prev,
             p.lists.inList
    ensures p.Valid() && OnePageEach(p.LiveMap(), k, last)
  {
    for q := 0 to limit
      invariant p.Valid() && SinglePages(p.LiveMap())
      invariant forall i: nat :: i in p.LiveMap() <==> i < limit && (i >= q || (Aligned(i, k) && i < last))
    {
      if !(Aligned(q, k) && q < last) {
        p.LiveBelow();
        p.Deallocate(q * PAGE_SIZE);
      }
    }
  }

  /** The pool hands out a block at `last` for `n` pages. */
  method TakeLast(p: Pool, n: nat, last: nat) returns (result: Option<nat>)
    requires p.Valid() && 0 < n && OnePageEach(p.LiveMap(), OrderFor(n), last) && OrderFor(n) < p.maxOrder
    requires Aligned(last, OrderFor(n)) && 0 < last < p.WasteStart() <= last + Pow2(OrderFor(n)) && last + n > p.total
    modifies p`tile, p`live, p`free, p`freePages, p`maxOrderFree, p.order, p.lists, p.lists.next, p.lists.prev,
             p.lists.inList
    ensures p.Valid() && result == Some(last)
  {
    EnoughLeft(p, n, last);
    ghost var before := p.LiveMap();
    ghost var a := RegionAtLast(p, OrderFor(n), last);
    assert p.Candidate(before, last, a, n);
    forall i: nat, b: nat | p.Candidate(before, i, b, n) ensures i == last {
      OnlyTheLastIsLeft(p, n, last, i, b);
    }
    Bytes(n);
    result := p.Allocate(n * PAGE_SIZE);
  }

  /**
   * Where a block can start too far up, a pool can be brought to serve a request there:
   * all single pages are taken, and given back but for one in each other block.
   */
  method ServesPastTheEnd(total: nat, pages: nat, n: nat) returns (p: Pool, result: Option<nat>)
    requires 0 < pages < total && Pow2(OrderFor(total)) < 2 * pages
    requires 0 < n && OrderFor(n) < OrderFor(total)
    requires !AlwaysBacked(total, 2 * pages - Pow2(OrderFor(total)), n)
    ensures fresh(p) && p.Valid() && p.total == total && p.pages == pages
    ensures result.Some? && result.value + n > total
  {
    p := new Pool(total, pages);
    var limit := 2 * pages - Pow2(OrderFor(total));
    var last := LastStart(limit, OrderFor(n));
    TakeSingles(p);
    ThinOut(p, OrderFor(n), last, limit);
    result := TakeLast(p, n, last);
  }

  /**
   * A pool of 400 pages, one of them metadata, is managed as 512 with waste from page
   * 286 on. With its first page taken it serves a request of 200 pages at page 256,
   * and that ends past the memory of the pool.
   */
  method LargeRequestMeetsPadding() returns (p: Pool, result: Option<nat>)
    ensures fresh(p) && p.Valid() && p.total == 400 && p.pages == 399
    ensures result == Some(256) && 256 + 200 > p.pages
  {
    Numbers();
    p := new Pool(400, 399);
    TakeFirst(p);
    FirstOfEach(p.LiveMap(), 8);
    result := TakeLast(p, 200, 256);
  }

  /** One page from a pool that is all free. */
  method TakeFirst(p: Pool)
    requires p.Valid() && p.LiveMap() == map[] && 0 < p.WasteStart()
    modifies p`tile, p`live, p`free, p`freePages, p`maxOrderFree, p.order, p.lists, p.lists.next, p.lists.prev,
             p.lists.inList
    ensures p.Valid() && p.LiveMap() == map[0 := 0]
  {
    OneIsOne();
    assert 0 !in p.LiveMap();
    var page := p.Allocate(PAGE_SIZE);
    ghost var a :| p.Candidate(map[], page.value, a, 1);
    assert page.value == 0;
  }

  lemma FirstOfEach(live: Tile, k: nat)
    requires live == map[0 := 0]
    ensures OnePageEach(live, k, Pow2(k)) && Aligned(Pow2(k), k)
  {
    ZeroAligned(k);
    NextAligned(0, k);
    forall i: nat | Aligned(i, k) && i < Pow2(k) ensures i == 0 {
      SameOrderOverlap(i, 0, k);
    }
  }

  lemma Numbers()
    ensures Pow2(9) == 512 && Pow2(8) == 256 && OrderFor(400) == 9 && OrderFor(200) == 8
  {
    OrderForUnique(400, 9);
    OrderForUnique(200, 8);
  }
}
