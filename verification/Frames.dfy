// Physical pages: the page allocator's one-page requests, and the chains of ranges
// that say where a set of physical pages is mapped.
//
// Addresses are page numbers. Physical page 0 holds the page allocator's own
// metadata, so block i of the pool is physical page i + 1, and 0 means "none".
module Frames {
  import opened Dyadic
  import opened Tiling
  import opened Buddy
  import opened BuddyPool

  /** allocation_range_t: `size` virtual pages from `vaddr` on physical pages from `frame` on. */
  datatype Range = Range(vaddr: nat, frame: nat, size: nat)

  /** A list of one-page ranges, highest first, that covers exactly [start, start + |ranges|). */
  predicate Chain(ranges: seq<Range>, start: nat) {
    forall i | 0 <= i < |ranges| :: ranges[i].vaddr == start + |ranges| - 1 - i && ranges[i].size == 1
  }

  /** The chain has physical page `f` at virtual page `v`. */
  ghost predicate PageAt(ranges: seq<Range>, start: nat, v: nat, f: nat) {
    start <= v < start + |ranges| && ranges[start + |ranges| - 1 - v].frame == f
  }

  ghost function FramesOf(ranges: seq<Range>): set<nat> {
    set i | 0 <= i < |ranges| :: ranges[i].frame
  }

  ghost predicate Distinct(ranges: seq<Range>) {
    forall i, j | 0 <= i < j < |ranges| :: ranges[i].frame != ranges[j].frame
  }

  ghost predicate PagePoolIf(open: bool, pool: Pool)
    reads pool, pool.repr
  {
    open ==> pool.repr == pool.Repr() && pool.Valid() && SinglePages(pool.LiveMap())
  }

  /** The pool of physical pages: only ever asked for single pages. A proof opens it where it is used. */
  ghost predicate PagePool(pool: Pool)
    reads pool, pool.repr
  {
    forall open {:trigger PagePoolIf(open, pool)} :: PagePoolIf(open, pool)
  }

  /** The physical pages that are handed out. */
  ghost function Used(pool: Pool): set<nat>
    reads pool
  {
    Raised(pool.LiveMap().Keys)
  }

  ghost function Raised(s: set<nat>): set<nat> {
    set i | i in s :: i + 1
  }

  /** The pages that can still be handed out: those that are counted free, less the waste. */
  ghost function Available(pool: Pool): int
    reads pool
  {
    pool.freePages - (Pow2(pool.maxOrder) - pool.pages)
  }

  /** The page numbers below `n`. */
  ghost function Below(n: nat): (s: set<nat>)
    ensures forall i: nat :: i in s <==> i < n
    ensures |s| == n
  {
    if n == 0 then {} else Below(n - 1) + {n - 1}
  }

  lemma SubsetCount(s: set<nat>, t: set<nat>)
    requires s <= t
    ensures |s| <= |t| && (|s| == |t| <==> s == t)
  {
    assert t == s + (t - s);
  }

  lemma {:induction false} SinglePagesBelow(tile: Tile, live: set<nat>, n: nat)
    requires forall i | i in live :: i in tile && tile[i] == 0 && i < n
    ensures PagesBelow(tile, live, n) == |live|
    decreases live
  {
    if live == {} {
      PagesEmpty(tile, n);
    } else {
      var x :| x in live;
      SinglePagesBelow(tile, live - {x}, n);
      PagesInsert(tile, live - {x}, live, x, n);
    }
  }

  /** The counter is the pages that exist less those handed out; Available are those below the waste that are not. */
  lemma Counter(pool: Pool)
    requires PagePool(pool)
    ensures pool.freePages == pool.pages - |pool.LiveMap().Keys| >= Available(pool) >= 0
    ensures Available(pool) == pool.WasteStart() - |pool.LiveMap().Keys|
    ensures Available(pool) == 0 <==> forall p: nat | p < pool.WasteStart() :: p in pool.LiveMap()
    ensures forall p | p in pool.LiveMap() :: p < pool.WasteStart() < pool.pages
  {
    assert PagePoolIf(true, pool);
    var v := pool.View();
    LiveInside(v);
    assert v.Has(Aspect.Sizes);
    assert pool.LiveMap().Keys == pool.live;
    forall i | i in pool.live ensures pool.tile[i] == 0 {
      assert i in pool.LiveMap();
    }
    SinglePagesBelow(pool.tile, pool.live, Pow2(v.m));
    SubsetCount(pool.live, Below(pool.WasteStart()));
  }

  /** page_allocate of one page: a physical page number, or 0 when none is left. */
  method PageAllocate(pool: Pool) returns (frame: nat)
    requires PagePool(pool)
    modifies pool.repr
    ensures PagePool(pool)
    ensures frame == 0 <==> old(Available(pool)) == 0
    ensures Available(pool) == old(Available(pool)) - if frame == 0 then 0 else 1
    ensures frame == 0 ==> pool.LiveMap() == old(pool.LiveMap())
    ensures frame != 0 ==> frame - 1 !in old(pool.LiveMap()) && pool.LiveMap() == old(pool.LiveMap())[frame - 1 := 0]
  {
    assert PagePoolIf(true, pool);
    Counter(pool);
    var block := pool.Allocate(PAGE_SIZE);
    if block.None? {
      return 0;
    }
    frame := block.value + 1;
    Counter(pool);
  }

  /** page_deallocate */
  method PageDeallocate(pool: Pool, frame: nat)
    requires PagePool(pool) && frame in Used(pool)
    modifies pool.repr
    ensures PagePool(pool) && Used(pool) == old(Used(pool)) - {frame}
  {
    assert PagePoolIf(true, pool);
    Counter(pool);
    ghost var live := pool.LiveMap().Keys;
    pool.Deallocate((frame - 1) * PAGE_SIZE);
    UsedAfter(live, frame - 1);
    assert pool.LiveMap().Keys == live - {frame - 1};
  }

  lemma UsedAfter(live: set<nat>, i: nat)
    ensures Raised(live + {i}) == Raised(live) + {i + 1}
    ensures Raised(live - {i}) == Raised(live) - {i + 1}
  {
    forall x | x in Raised(live) && x != i + 1 ensures x in Raised(live - {i}) {
      assert x - 1 in live - {i};
    }
  }

  lemma FramesFirst(ranges: seq<Range>)
    requires ranges != []
    ensures FramesOf(ranges) == {ranges[0].frame} + FramesOf(ranges[1..])
    ensures Distinct(ranges) ==> Distinct(ranges[1..]) && ranges[0].frame !in FramesOf(ranges[1..])
    ensures Distinct(ranges) <== Distinct(ranges[1..]) && ranges[0].frame !in FramesOf(ranges[1..])
  {
    var rest := ranges[1..];
    forall f | f in FramesOf(ranges) ensures f == ranges[0].frame || f in FramesOf(rest) {
      var i :| 0 <= i < |ranges| && ranges[i].frame == f;
      if i > 0 { assert rest[i - 1].frame == f; }
    }
    forall f | f in FramesOf(rest) ensures f in FramesOf(ranges) {
      var i :| 0 <= i < |rest| && rest[i].frame == f;
      assert ranges[i + 1].frame == f;
    }
    if Distinct(ranges) {
      forall i, j | 0 <= i < j < |rest| ensures rest[i].frame != rest[j].frame {
        assert ranges[i + 1].frame != ranges[j + 1].frame;
      }
    }
    if Distinct(rest) && ranges[0].frame !in FramesOf(rest) {
      forall i, j | 0 <= i < j < |ranges| ensures ranges[i].frame != ranges[j].frame {
        assert rest[j - 1].frame in FramesOf(rest);
        if i > 0 { assert rest[i - 1].frame != rest[j - 1].frame; }
      }
    }
  }

  /** pages_deallocate: gives back the physical pages of a list of ranges. */
  method PagesDeallocate(pool: Pool, ranges: seq<Range>)
    requires PagePool(pool) && Distinct(ranges) && FramesOf(ranges) <= Used(pool)
    modifies pool.repr
    ensures PagePool(pool) && Used(pool) == old(Used(pool)) - FramesOf(ranges)
  {
    var r := ranges;
    while r != []
      invariant PagePool(pool) && Distinct(r) && FramesOf(r) <= Used(pool)
      invariant Used(pool) - FramesOf(r) == old(Used(pool)) - FramesOf(ranges)
      decreases |r|
    {
      FramesFirst(r);
      PageDeallocate(pool, r[0].frame);
      r := r[1..];
    }
    assert FramesOf([]) == {};
  }

  /** A pool of single pages is determined by the pages in use, with its lists and counters. */
  twostate lemma SameUsedSamePool(pool: Pool)
    requires old(PagePool(pool)) && PagePool(pool) && Used(pool) == old(Used(pool))
    ensures pool.LiveMap() == old(pool.LiveMap())
    ensures SameBlocks(old(pool.View()), pool.View())
    ensures pool.freePages == old(pool.freePages) && pool.maxOrderFree == old(pool.maxOrderFree)
  {
    assert old(PagePoolIf(true, pool)) && PagePoolIf(true, pool);
    var live, live0 := pool.LiveMap(), old(pool.LiveMap());
    forall i ensures i in live <==> i in live0 {
      if i in live { assert i + 1 in Raised(live.Keys); }
      if i in live0 { assert i + 1 in Raised(live0.Keys); }
    }
    assert live == live0;
    HistoryIndependence(old(pool.View()), pool.View());
    CountersFollow(pool);
  }

  /** A chain of new pages from `vaddr` up, added to the pages used before. */
  ghost predicate Built(used: set<nat>, ranges: seq<Range>, vaddr: nat, used': set<nat>) {
    forall open {:trigger BuiltIf(open, used, ranges, vaddr, used')} :: BuiltIf(open, used, ranges, vaddr, used')
  }

  ghost predicate BuiltIf(open: bool, used: set<nat>, ranges: seq<Range>, vaddr: nat, used': set<nat>) {
    open ==>
    && Chain(ranges, vaddr) && Distinct(ranges)
    && 0 !in FramesOf(ranges) && FramesOf(ranges) !! used
    && used' == used + FramesOf(ranges)
  }

  lemma BuiltOneMore(used: set<nat>, live: set<nat>, ranges: seq<Range>, vaddr: nat, frame: nat)
    requires Built(used, ranges, vaddr, Raised(live)) && frame > 0 && frame - 1 !in live
    ensures Built(used, [Range(vaddr + |ranges|, frame, 1)] + ranges, vaddr, Raised(live + {frame - 1}))
  {
    assert BuiltIf(true, used, ranges, vaddr, Raised(live));
    UsedAfter(live, frame - 1);
    var more := [Range(vaddr + |ranges|, frame, 1)] + ranges;
    assert more[1..] == ranges;
    FramesFirst(more);
  }

  /** One turn of the loop of pages_allocate: puts one more page on top, if there is one. */
  method Extend(pool: Pool, ghost used: set<nat>, ranges: seq<Range>, vaddr: nat) returns (got: bool, more: seq<Range>)
    requires PagePool(pool) && Built(used, ranges, vaddr, Used(pool))
    modifies pool.repr
    ensures PagePool(pool) && Built(used, more, vaddr, Used(pool))
    ensures got <==> old(Available(pool)) > 0
    ensures Available(pool) == old(Available(pool)) - if got then 1 else 0
    ensures if got then |more| == |ranges| + 1 else more == ranges
  {
    Counter(pool);
    ghost var live := pool.LiveMap().Keys;
    var newPage := PageAllocate(pool);
    if newPage == 0 {
      return false, ranges;
    }
    BuiltOneMore(used, live, ranges, vaddr, newPage);
    assert pool.LiveMap().Keys == live + {newPage - 1};
    got, more := true, [Range(vaddr + |ranges|, newPage, 1)] + ranges;
  }

  /**
   * pages_allocate: a chain of `pages` one-page ranges from `vaddr` up. It succeeds
   * exactly when there are so many pages left and so many range structures can be
   * made; if not, every list of the pool is as it was.
   */
  method PagesAllocate(pool: Pool, vaddr: nat, pages: nat, structures: nat) returns (ok: bool, ranges: seq<Range>)
    requires PagePool(pool)
    modifies pool.repr
    ensures ok <==> pages <= old(Available(pool)) && pages <= structures
    ensures PagePool(pool)
    ensures ok ==> |ranges| == pages && Built(old(Used(pool)), ranges, vaddr, Used(pool))
    ensures Available(pool) == old(Available(pool)) - if ok then pages else 0
    ensures !ok ==>
              && ranges == [] && Used(pool) == old(Used(pool))
              && SameBlocks(old(pool.View()), pool.View())
              && pool.freePages == old(pool.freePages) && pool.maxOrderFree == old(pool.maxOrderFree)
  {
    Counter(pool);
    ghost var used := Used(pool);
    ok, ranges := true, [];
    assert FramesOf([]) == {} && BuiltIf(true, used, ranges, vaddr, Used(pool));
    if pages > pool.freePages {
      SameUsedSamePool(pool);
      return false, [];
    }
    while |ranges| < pages
      invariant |ranges| <= pages && |ranges| <= structures
      invariant PagePool(pool) && Built(used, ranges, vaddr, Used(pool))
      invariant Available(pool) == old(Available(pool)) - |ranges| >= 0
    {
      var got := false;
      if |ranges| < structures { // else malloc fails
        got, ranges := Extend(pool, used, ranges, vaddr);
      }
      if !got {
        assert BuiltIf(true, used, ranges, vaddr, Used(pool));
        PagesDeallocate(pool, ranges);
        assert Used(pool) == used;
        SameUsedSamePool(pool);
        return false, [];
      }
    }
  }
}
