// The pages of a pool as a tiling by aligned power-of-two blocks. A tiling maps
// the first page of every block to the block's order; some of the blocks are
// live (handed out), the others free.
//
// The main result is that a coalesced tiling is a function of its live blocks.
module Tiling {
  import opened Dyadic

  type Tile = map<nat, nat>

  /** The page just past block `i`. */
  function End(tile: Tile, i: nat): nat
    requires i in tile
  {
    i + Pow2(tile[i])
  }

  /**
   * The blocks of `tile` are aligned, disjoint, and follow one another from page 0
   * to page 2^m. The parts are named so that a proof says which blocks it uses.
   */
  ghost predicate Tiles(m: nat, tile: Tile) {
    && 0 in tile
    && (forall i {:trigger Fits(m, tile, i)} | i in tile :: Fits(m, tile, i))
    && (forall i {:trigger Followed(m, tile, i)} | i in tile :: Followed(m, tile, i))
    && (forall i, j {:trigger Apart(tile, i, j)} | i in tile && j in tile && i != j :: Apart(tile, i, j))
  }

  ghost predicate Fits(m: nat, tile: Tile, i: nat)
    requires i in tile
  {
    tile[i] <= m && Aligned(i, tile[i]) && End(tile, i) <= Pow2(m)
  }

  /** Block `i` is the last one, or another block starts where it ends. */
  ghost predicate Followed(m: nat, tile: Tile, i: nat)
    requires i in tile
  {
    End(tile, i) == Pow2(m) || End(tile, i) in tile
  }

  ghost predicate Apart(tile: Tile, i: nat, j: nat)
    requires i in tile && j in tile
  {
    End(tile, i) <= j || End(tile, j) <= i
  }

  /** Blocks `i` and its buddy are never both free at the same order. */
  ghost predicate Coalesced(m: nat, tile: Tile, free: set<nat>)
    requires free <= tile.Keys
  {
    forall i {:trigger BuddyFree(tile, free, i)} | i in free && tile[i] < m :: !BuddyFree(tile, free, i)
  }

  ghost predicate BuddyFree(tile: Tile, free: set<nat>, i: nat)
    requires i in tile && free <= tile.Keys
  {
    FlipBit(i, tile[i]) in free && tile[FlipBit(i, tile[i])] == tile[i]
  }

  /** The bounds of a block, without its alignment. */
  lemma Bounds(m: nat, tile: Tile, i: nat)
    requires Tiles(m, tile) && i in tile
    ensures tile[i] <= m && End(tile, i) <= Pow2(m)
  {
    assert Fits(m, tile, i);
  }

  /** One block of the highest order. */
  lemma WholePool(m: nat)
    ensures Tiles(m, map[0 := m])
  {
    ZeroAligned(m);
  }

  lemma {:induction false} ZeroAligned(k: nat)
    ensures Aligned(0, k)
    decreases k
  {
    if k > 0 {
      ZeroAligned(k - 1);
    }
  }

  function SplitTile(tile: Tile, i: nat): Tile
    requires i in tile && tile[i] > 0
  {
    tile[i := tile[i] - 1][i + Pow2(tile[i] - 1) := tile[i] - 1]
  }

  lemma SplitKeepsTiles(m: nat, tile: Tile, i: nat)
    requires Tiles(m, tile) && i in tile && tile[i] > 0
    ensures i + Pow2(tile[i] - 1) !in tile
    ensures FlipBit(i, tile[i] - 1) == i + Pow2(tile[i] - 1)
    ensures Tiles(m, SplitTile(tile, i))
  {
    SplitHalves(m, tile, i);
    var tile' := SplitTile(tile, i);
    forall x | x in tile' ensures Fits(m, tile', x) {
      SplitFits(m, tile, i, x);
    }
    forall x | x in tile' ensures Followed(m, tile', x) {
      SplitFollowed(m, tile, i, x);
    }
    forall x, y | x in tile' && y in tile' && x != y ensures Apart(tile', x, y) {
      SplitApart(tile, i, x, y);
    }
  }

  lemma SplitHalves(m: nat, tile: Tile, i: nat)
    requires Tiles(m, tile) && i in tile && tile[i] > 0
    ensures var k := tile[i] - 1;
            var r := i + Pow2(k);
            && r !in tile && FlipBit(i, k) == r && Aligned(i, k) && Aligned(r, k)
  {
    var k := tile[i] - 1;
    assert Fits(m, tile, i);
    SplitAligned(i, k);
    var r := i + Pow2(k);
    assert r in tile ==> Apart(tile, i, r);
  }

  lemma RightHalf(m: nat, tile: Tile, i: nat)
    requires Tiles(m, tile) && i in tile && tile[i] > 0
    ensures i + Pow2(tile[i] - 1) !in tile && FlipBit(i, tile[i] - 1) == i + Pow2(tile[i] - 1)
    ensures tile[i] <= m && End(tile, i) <= Pow2(m)
  {
    SplitHalves(m, tile, i);
    Bounds(m, tile, i);
  }

  lemma SplitFits(m: nat, tile: Tile, i: nat, x: nat)
    requires Tiles(m, tile) && i in tile && tile[i] > 0
    requires x in SplitTile(tile, i)
    ensures Fits(m, SplitTile(tile, i), x)
  {
    SplitHalves(m, tile, i);
    var r := i + Pow2(tile[i] - 1);
    assert Fits(m, tile, if x == r then i else x);
  }

  lemma SplitFollowed(m: nat, tile: Tile, i: nat, x: nat)
    requires Tiles(m, tile) && i in tile && tile[i] > 0
    requires x in SplitTile(tile, i)
    ensures Followed(m, SplitTile(tile, i), x)
  {
    var r := i + Pow2(tile[i] - 1);
    assert Followed(m, tile, if x == r then i else x);
  }

  lemma SplitApart(tile: Tile, i: nat, x: nat, y: nat)
    requires forall i, j {:trigger Apart(tile, i, j)} | i in tile && j in tile && i != j :: Apart(tile, i, j)
    requires i in tile && tile[i] > 0 && x != y
    requires x in SplitTile(tile, i) && y in SplitTile(tile, i)
    ensures Apart(SplitTile(tile, i), x, y)
  {
    var r := i + Pow2(tile[i] - 1);
    if x != r && y != r {
      assert Apart(tile, x, y);
    } else if x == r {
      assert y != i ==> Apart(tile, i, y);
    } else {
      assert x != i ==> Apart(tile, x, i);
    }
  }

  /** The left half `i` of two equal buddies absorbs the right half. */
  function MergeTile(tile: Tile, i: nat): Tile
    requires i in tile
  {
    (tile - {i + Pow2(tile[i])})[i := tile[i] + 1]
  }

  lemma MergeKeepsTiles(m: nat, tile: Tile, i: nat)
    requires Tiles(m, tile) && i in tile && tile[i] < m && Aligned(i, tile[i] + 1)
    requires End(tile, i) in tile && tile[End(tile, i)] == tile[i]
    ensures Tiles(m, MergeTile(tile, i))
  {
    var r := End(tile, i);
    var tile' := MergeTile(tile, i);
    assert tile'.Keys == tile.Keys - {r};
    forall x | x in tile' ensures Fits(m, tile', x) {
      assert Fits(m, tile, if x == i then r else x);
    }
    forall x | x in tile' ensures Followed(m, tile', x) {
      MergeFollowed(m, tile, i, x);
    }
    forall x, y | x in tile' && y in tile' && x != y ensures Apart(tile', x, y) {
      assert Apart(tile, x, y);
      if x == i { assert Apart(tile, r, y); }
      if y == i { assert Apart(tile, x, r); }
    }
  }

  lemma MergeFollowed(m: nat, tile: Tile, i: nat, x: nat)
    requires Tiles(m, tile) && i in tile
    requires End(tile, i) in tile && tile[End(tile, i)] == tile[i]
    requires x in MergeTile(tile, i)
    ensures Followed(m, MergeTile(tile, i), x)
  {
    var r := End(tile, i);
    if x == i {
      assert Followed(m, tile, r);
    } else {
      assert Followed(m, tile, x) && Apart(tile, x, i);
    }
  }

  lemma SplitKeepsCoalesced(m: nat, tile: Tile, free: set<nat>, b: nat)
    requires Tiles(m, tile) && free <= tile.Keys && Coalesced(m, tile, free)
    requires b in tile && tile[b] > 0 && b !in free
    ensures Coalesced(m, SplitTile(tile, b), free + {b + Pow2(tile[b] - 1)})
  {
    SplitHalves(m, tile, b);
    var k := tile[b] - 1;
    var r := b + Pow2(k);
    var tile', free' := SplitTile(tile, b), free + {r};
    FlipBitInvolutive(b, k);
    forall i | i in free' && tile'[i] < m ensures !BuddyFree(tile', free', i) {
      if i != r {
        assert !BuddyFree(tile, free, i);
        FlipBitInvolutive(i, tile[i]);
      }
    }
  }

  lemma MergeKeepsCoalesced(m: nat, tile: Tile, free: set<nat>, b: nat)
    requires Tiles(m, tile) && free <= tile.Keys && Coalesced(m, tile, free)
    requires b in tile && tile[b] < m && b !in free && BuddyFree(tile, free, b)
    ensures var buddy := FlipBit(b, tile[b]);
            var left := if b <= buddy then b else buddy;
            && left in tile && left + Pow2(tile[left]) == (if b <= buddy then buddy else b)
            && Tiles(m, MergeTile(tile, left))
            && free - {buddy} <= MergeTile(tile, left).Keys
            && Coalesced(m, MergeTile(tile, left), free - {buddy})
  {
    var k := tile[b];
    var buddy := FlipBit(b, k);
    var left := if b <= buddy then b else buddy;
    assert Fits(m, tile, b);
    AlignedHalves(b, k);
    FlipBitInvolutive(b, k);
    AlignedHalves(buddy, k);
    MergeKeepsTiles(m, tile, left);
    var tile', free' := MergeTile(tile, left), free - {buddy};
    forall i | i in free' && tile'[i] < m ensures !BuddyFree(tile', free', i) {
      assert !BuddyFree(tile, free, i);
    }
  }

  lemma TakeKeepsCoalesced(m: nat, tile: Tile, free: set<nat>, b: nat)
    requires free <= tile.Keys && Coalesced(m, tile, free)
    ensures Coalesced(m, tile, free - {b})
  {
    forall i | i in free - {b} && tile[i] < m ensures !BuddyFree(tile, free - {b}, i) {
      assert !BuddyFree(tile, free, i);
    }
  }

  lemma PutKeepsCoalesced(m: nat, tile: Tile, free: set<nat>, b: nat)
    requires free <= tile.Keys && Coalesced(m, tile, free)
    requires b in tile && (tile[b] < m ==> !BuddyFree(tile, free, b))
    ensures Coalesced(m, tile, free + {b})
  {
    forall i | i in free + {b} && tile[i] < m ensures !BuddyFree(tile, free + {b}, i) {
      FlipBitInvolutive(i, tile[i]);
      if i in free { assert !BuddyFree(tile, free, i); }
      assert FlipBit(b, tile[b]) != b by { FlipBitMoves(b, tile[b]); }
    }
  }

  /** A right buddy of a block below the top order ends inside the pool. */
  lemma {:induction false} BuddyInside(m: nat, i: nat, k: nat)
    requires k < m && Aligned(i, k) && i + Pow2(k) <= Pow2(m)
    ensures 0 <= FlipBit(i, k) && FlipBit(i, k) + Pow2(k) <= Pow2(m)
  {
    AlignedHalves(i, k);
    ZeroAligned(m);
    if Aligned(i, k + 1) {
      NestedOrDisjoint(i, k + 1, 0, m);
      Pow2Monotone(k + 1, m);
    }
  }

  /** So does the whole block one order up. */
  lemma AlignedInside(m: nat, i: nat, k: nat)
    requires k < m && Aligned(i, k) && i + Pow2(k) <= Pow2(m)
    ensures FlipBit(i, k) == i + Pow2(k) ==> i + Pow2(k + 1) <= Pow2(m)
  {
    BuddyInside(m, i, k);
  }

  /** Every page lies in a block. */
  lemma HeadOf(m: nat, tile: Tile, p: nat) returns (h: nat)
    requires Tiles(m, tile) && p < Pow2(m)
    ensures h in tile && h <= p < End(tile, h)
  {
    h := 0;
    while p >= End(tile, h)
      invariant h in tile && h <= p
      decreases p - h
    {
      assert Followed(m, tile, h);
      h := End(tile, h);
    }
  }

  // ---- The canonical form ----

  /** No page of the aligned block (i, k) is in a live block. */
  ghost predicate ClearOf(live: Tile, i: nat, k: nat) {
    forall j | j in live :: j + Pow2(live[j]) <= i || i + Pow2(k) <= j
  }

  function Parent(i: nat, k: nat): nat {
    if Aligned(i, k + 1) then i else FlipBit(i, k)
  }

  /** (i, k) is a largest aligned block of the pool that no live block touches. */
  ghost predicate MaximalFree(m: nat, live: Tile, i: nat, k: nat) {
    && k <= m
    && Aligned(i, k)
    && i + Pow2(k) <= Pow2(m)
    && ClearOf(live, i, k)
    && (k < m ==> !ClearOf(live, Parent(i, k), k + 1))
  }

  /** The live part of a tiling. */
  function LiveTile(tile: Tile, free: set<nat>): Tile {
    tile - free
  }

  /**
   * If no block sticks out of the aligned region (i, k) and no block in it is
   * live, the region is a single block.
   */
  lemma {:induction false} FreeRegionIsOneBlock(m: nat, tile: Tile, free: set<nat>, i: nat, k: nat)
    requires Tiles(m, tile) && free <= tile.Keys && Coalesced(m, tile, free)
    requires k <= m && Aligned(i, k) && i + Pow2(k) <= Pow2(m)
    requires ClearOf(LiveTile(tile, free), i, k)
    requires Unbroken(tile, i, k)
    ensures i in free && tile[i] == k
    decreases k
  {
    var h := HeadOf(m, tile, i);
    assert h == i;
    assert Fits(m, tile, i);
    assert i !in LiveTile(tile, free);
    if tile[i] != k {
      if tile[i] > k { Pow2Monotone(k, tile[i]); }
      var r, together := i + Pow2(k - 1), BuddyFree(tile, free, i);
      HalvesOfRegion(m, tile, i, k);
      FreeRegionIsOneBlock(m, tile, free, i, k - 1);
      FreeRegionIsOneBlock(m, tile, free, r, k - 1);
    }
  }

  /** No block sticks out of the region (i, k). */
  ghost predicate Unbroken(tile: Tile, i: nat, k: nat) {
    forall j | j in tile && j < i + Pow2(k) && i < End(tile, j) :: i <= j && End(tile, j) <= i + Pow2(k)
  }

  /** If the region is not one block, no block sticks out of its halves. */
  lemma HalvesOfRegion(m: nat, tile: Tile, i: nat, k: nat)
    requires Tiles(m, tile) && i in tile && tile[i] < k && Aligned(i, k) && Unbroken(tile, i, k)
    ensures var r := i + Pow2(k - 1);
            && Aligned(i, k - 1) && Aligned(r, k - 1) && FlipBit(i, k - 1) == r
            && Unbroken(tile, i, k - 1) && Unbroken(tile, r, k - 1)
  {
    SplitAligned(i, k - 1);
    var r := i + Pow2(k - 1);
    forall j | j in tile && j < r && i < End(tile, j) ensures i <= j && End(tile, j) <= r {
      InHalf(m, tile, i, k - 1, j);
    }
    assert End(tile, i) <= r;
    forall j | j in tile && j < r + Pow2(k - 1) && r < End(tile, j)
      ensures r <= j && End(tile, j) <= r + Pow2(k - 1)
    {
      if j != i { assert Apart(tile, i, j); }
    }
  }

  /** A block inside a split region is inside one half of it. */
  lemma InHalf(m: nat, tile: Tile, i: nat, k: nat, j: nat)
    requires Tiles(m, tile) && i in tile && tile[i] <= k && Aligned(i, k + 1)
    requires j in tile && i <= j && j < i + Pow2(k)
    ensures End(tile, j) <= i + Pow2(k)
  {
    SplitAligned(i, k);
    assert Fits(m, tile, j);
    if j == i {
      Pow2Monotone(tile[i], k);
    } else {
      assert Apart(tile, i, j);
      if tile[j] <= k {
        NestedOrDisjoint(j, tile[j], i, k);
      } else {
        Pow2Monotone(k, tile[j]);
        NestedOrDisjoint(i, k, j, tile[j]);
      }
    }
  }

  /** In a coalesced tiling the free blocks are exactly the maximal free regions. */
  lemma FreeBlocksAreCanonical(m: nat, tile: Tile, free: set<nat>, i: nat, k: nat)
    requires Tiles(m, tile) && free <= tile.Keys && Coalesced(m, tile, free)
    ensures i in free && tile[i] == k <==> MaximalFree(m, LiveTile(tile, free), i, k)
  {
    if i in free && tile[i] == k {
      FreeBlockIsMaximal(m, tile, free, i);
    }
    if MaximalFree(m, LiveTile(tile, free), i, k) {
      MaximalIsFreeBlock(m, tile, free, i, k);
    }
  }

  lemma FreeBlockIsMaximal(m: nat, tile: Tile, free: set<nat>, i: nat)
    requires Tiles(m, tile) && free <= tile.Keys && Coalesced(m, tile, free) && i in free
    ensures MaximalFree(m, LiveTile(tile, free), i, tile[i])
  {
    var live, k := LiveTile(tile, free), tile[i];
    assert Fits(m, tile, i);
    forall j | j in live ensures j + Pow2(live[j]) <= i || i + Pow2(k) <= j {
      assert Apart(tile, i, j);
    }
    if k < m && ClearOf(live, Parent(i, k), k + 1) {
      AlignedHalves(i, k);
      BuddyInside(m, i, k);
      var b := FlipBit(i, k);
      FlipBitInvolutive(i, k);
      AlignedHalves(b, k);
      forall j | j in tile && j < b + Pow2(k) && b < End(tile, j)
        ensures b <= j && End(tile, j) <= b + Pow2(k)
      {
        assert j != i && Apart(tile, i, j) && Fits(m, tile, j);
        BlockAgainstRegion(tile, j, b, k);
      }
      FreeRegionIsOneBlock(m, tile, free, b, k);
      assert BuddyFree(tile, free, i);
    }
  }

  /** A block that meets the aligned region (i, k) is inside it or swallows the region's parent. */
  lemma BlockAgainstRegion(tile: Tile, j: nat, i: nat, k: nat)
    requires j in tile && Aligned(j, tile[j]) && Aligned(i, k)
    requires j < i + Pow2(k) && i < End(tile, j)
    ensures Aligned(Parent(i, k), k + 1)
    ensures || (i <= j && End(tile, j) <= i + Pow2(k))
            || (j <= Parent(i, k) && Parent(i, k) + Pow2(k + 1) <= End(tile, j))
  {
    AlignedHalves(i, k);
    if tile[j] <= k {
      NestedOrDisjoint(j, tile[j], i, k);
    } else {
      NestedOrDisjoint(Parent(i, k), k + 1, j, tile[j]);
    }
  }

  lemma MaximalIsFreeBlock(m: nat, tile: Tile, free: set<nat>, i: nat, k: nat)
    requires Tiles(m, tile) && free <= tile.Keys && Coalesced(m, tile, free)
    requires MaximalFree(m, LiveTile(tile, free), i, k)
    ensures i in free && tile[i] == k
  {
    var live := LiveTile(tile, free);
    forall j | j in tile && j < i + Pow2(k) && i < End(tile, j)
      ensures i <= j && End(tile, j) <= i + Pow2(k)
    {
      assert Fits(m, tile, j);
      BlockAgainstRegion(tile, j, i, k);
      assert j !in live;
      if k < m && j <= Parent(i, k) && Parent(i, k) + Pow2(k + 1) <= End(tile, j) {
        InsideFreeBlock(m, tile, free, j, Parent(i, k), k + 1);
      }
    }
    FreeRegionIsOneBlock(m, tile, free, i, k);
  }

  /** A region inside a free block is clear. */
  lemma InsideFreeBlock(m: nat, tile: Tile, free: set<nat>, j: nat, i: nat, k: nat)
    requires Tiles(m, tile) && free <= tile.Keys
    requires j in free && j <= i && i + Pow2(k) <= End(tile, j)
    ensures ClearOf(LiveTile(tile, free), i, k)
  {
    forall l | l in LiveTile(tile, free) ensures l + Pow2(tile[l]) <= i || i + Pow2(k) <= l {
      assert Apart(tile, j, l);
    }
  }

  /** History independence: the live blocks alone determine a coalesced tiling. */
  lemma TilingIsDeterminedByLive(m: nat, t1: Tile, f1: set<nat>, t2: Tile, f2: set<nat>)
    requires Tiles(m, t1) && f1 <= t1.Keys && Coalesced(m, t1, f1)
    requires Tiles(m, t2) && f2 <= t2.Keys && Coalesced(m, t2, f2)
    requires LiveTile(t1, f1) == LiveTile(t2, f2)
    ensures t1 == t2 && f1 == f2
  {
    forall i | i in f1 ensures i in f2 && t2[i] == t1[i] {
      FreeBlocksAreCanonical(m, t1, f1, i, t1[i]);
      FreeBlocksAreCanonical(m, t2, f2, i, t1[i]);
    }
    forall i | i in f2 ensures i in f1 {
      FreeBlocksAreCanonical(m, t1, f1, i, t2[i]);
      FreeBlocksAreCanonical(m, t2, f2, i, t2[i]);
    }
    assert t1.Keys == f1 + LiveTile(t1, f1).Keys;
    assert t2.Keys == f2 + LiveTile(t2, f2).Keys;
    forall i | i in t1 ensures t1[i] == t2[i] {
      if i !in f1 {
        assert LiveTile(t1, f1)[i] == LiveTile(t2, f2)[i];
      }
    }
  }

  /** With nothing live a coalesced pool is one block of the highest order. */
  lemma NothingLive(m: nat, tile: Tile, free: set<nat>)
    requires Tiles(m, tile) && free == tile.Keys && Coalesced(m, tile, free)
    ensures tile == map[0 := m]
  {
    WholePool(m);
    TilingIsDeterminedByLive(m, tile, free, map[0 := m], {0});
  }

  // ---- Accounting ----

  /** The number of pages in the blocks of `s` that start below page `n`. */
  ghost function PagesBelow(tile: Tile, s: set<nat>, n: nat): nat {
    if n == 0 then 0
    else PagesBelow(tile, s, n - 1) + (if n - 1 in s && n - 1 in tile then Pow2(tile[n - 1]) else 0)
  }

  lemma {:induction false} PagesSame(tile: Tile, s: set<nat>, tile': Tile, s': set<nat>, n: nat)
    requires forall i | 0 <= i < n :: (i in s && i in tile) == (i in s' && i in tile')
    requires forall i | 0 <= i < n && i in s && i in tile :: tile[i] == tile'[i]
    ensures PagesBelow(tile, s, n) == PagesBelow(tile', s', n)
  {
    if n > 0 {
      PagesSame(tile, s, tile', s', n - 1);
    }
  }

  lemma {:induction false} PagesEmpty(tile: Tile, n: nat)
    ensures PagesBelow(tile, {}, n) == 0
  {
    if n > 0 {
      PagesEmpty(tile, n - 1);
    }
  }

  /** One more block `x`. */
  lemma {:induction false} PagesInsert(tile: Tile, s: set<nat>, s': set<nat>, x: nat, n: nat)
    requires x in tile && x !in s && s' == s + {x}
    ensures PagesBelow(tile, s', n) == PagesBelow(tile, s, n) + if x < n then Pow2(tile[x]) else 0
  {
    if n > 0 {
      PagesInsert(tile, s, s', x, n - 1);
    }
  }

  /** One more block `x`, after changes to blocks outside `s`. */
  lemma PagesOneMore(tile: Tile, s: set<nat>, tile': Tile, x: nat, n: nat)
    requires x in tile' && x !in s && x < n
    requires forall i | i in s :: i in tile && i in tile' && tile[i] == tile'[i]
    ensures PagesBelow(tile', s + {x}, n) == PagesBelow(tile, s, n) + Pow2(tile'[x])
  {
    PagesSame(tile, s, tile', s, n);
    PagesInsert(tile', s, s + {x}, x, n);
  }

  /** The pages of two disjoint sets of blocks add up. */
  lemma {:induction false} PagesUnion(tile: Tile, s: set<nat>, t: set<nat>, n: nat)
    requires s !! t
    ensures PagesBelow(tile, s + t, n) == PagesBelow(tile, s, n) + PagesBelow(tile, t, n)
  {
    if n > 0 {
      PagesUnion(tile, s, t, n - 1);
    }
  }

  lemma {:induction false} PagesGap(tile: Tile, s: set<nat>, i: nat, n: nat)
    requires i <= n && forall j | i <= j < n :: j !in tile || j !in s
    ensures PagesBelow(tile, s, n) == PagesBelow(tile, s, i)
    decreases n
  {
    if i < n {
      PagesGap(tile, s, i, n - 1);
    }
  }

  /** All blocks together have 2^m pages. */
  lemma AllPages(m: nat, tile: Tile)
    requires Tiles(m, tile)
    ensures PagesBelow(tile, tile.Keys, Pow2(m)) == Pow2(m)
  {
    var h := 0;
    while h < Pow2(m)
      invariant h == Pow2(m) || h in tile
      invariant h <= Pow2(m)
      invariant PagesBelow(tile, tile.Keys, h) == h
      decreases Pow2(m) - h
    {
      assert Followed(m, tile, h);
      assert Fits(m, tile, h);
      var e := End(tile, h);
      forall j | j in tile && h < j ensures e <= j {
        assert Apart(tile, h, j);
      }
      PagesGap(tile, tile.Keys, h + 1, e);
      h := e;
    }
  }
}
