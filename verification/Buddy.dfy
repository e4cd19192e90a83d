// The block table of a buddy pool as a value, and what splitting, merging,
// taking and putting back a block do to it.
module Buddy {
  import opened Dyadic
  import opened Tiling
  import opened BlockLists

  /** The aspects of a consistent block table. A proof names the ones it uses. */
  datatype Aspect = Sizes | Blocks | Entries | Membership

  /**
   * What the block table and the lists say, together with the tiling they stand
   * for. `free` are the listed blocks; a block that is neither free nor live is
   * in the hands of the operation in progress.
   */
  datatype Image = Image(
    m: nat, pages: nat,
    order: seq<nat>, lists: seq<seq<nat>>,
    tile: Tile, live: set<nat>, free: set<nat>)
  {
    ghost function WasteStart(): int { 2 * pages - Pow2(m) }

    /** The list for a free block: by order, or the last list for waste. */
    ghost function ListOf(i: nat): nat
      requires i in tile
    {
      if i < WasteStart() && tile[i] <= m then tile[i] else m + 1
    }

    ghost predicate Has(a: Aspect) {
      match a
      case Sizes =>
        && 0 < pages < Pow2(m) < 2 * pages
        && |order| == Pow2(m) + 1 && |lists| == m + 2
        && free <= tile.Keys && live <= tile.Keys && free !! live
      case Blocks =>
        Tiles(m, tile) && free <= tile.Keys && Coalesced(m, tile, free)
      case Entries =>
        && |order| == Pow2(m) + 1 && pages < Pow2(m)
        && (forall i | i in tile :: i < pages && order[i] == tile[i] <= m)
        && (forall i | i in live :: i < WasteStart())
      case Membership =>
        && |lists| == m + 2
        && (forall i | i in free && i in tile :: i in lists[ListOf(i)])
        && (forall l, i | 0 <= l <= m + 1 && i in lists[l] :: i in free && i in tile && ListOf(i) == l)
    }

    ghost predicate Holds() {
      forall a {:trigger Has(a)} :: Has(a)
    }
  }

  lemma Holding(v: Image)
    requires v.Has(Sizes) && v.Has(Blocks) && v.Has(Entries) && v.Has(Membership)
    ensures v.Holds()
  {
    forall a ensures v.Has(a) {
      match a case Sizes => case Blocks => case Entries => case Membership =>
    }
  }

  /** One listed block of the highest order, as init_pool leaves it. */
  lemma WholeImage(v: Image)
    requires 0 < v.pages < Pow2(v.m) < 2 * v.pages
    requires |v.order| == Pow2(v.m) + 1 && v.order[0] == v.m
    requires |v.lists| == v.m + 2 && v.lists[v.m] == [0]
    requires forall l | 0 <= l < |v.lists| && l != v.m :: v.lists[l] == []
    requires v.tile == map[0 := v.m] && v.live == {} && v.free == {0}
    ensures v.Holds()
  {
    WholePool(v.m);
    Holding(v);
  }

  // ---- Splitting ----

  /** The image after split_block on the block `b` in hand, whose right half is `r`. */
  ghost function Split(v: Image, b: nat, r: nat): Image
    requires b in v.tile && v.tile[b] > 0 && b < |v.order| && r < |v.order|
    requires (if r < v.WasteStart() then v.tile[b] - 1 else v.m + 1) < |v.lists|
  {
    var k := v.tile[b] - 1;
    v.(order := v.order[b := k][r := k],
       tile := SplitTile(v.tile, b),
       free := v.free + {r},
       lists := Append(v.lists, if r < v.WasteStart() then k else v.m + 1, r))
  }

  ghost predicate InHand(v: Image, b: nat) {
    b in v.tile && b !in v.free && b !in v.live && b < v.WasteStart()
  }

  /** Waste starts early enough for every right half to have a metadata entry. */
  lemma RightHalfInside(v: Image, b: nat)
    requires v.Holds() && InHand(v, b) && v.tile[b] > 0
    ensures var r := b + Pow2(v.tile[b] - 1);
            && FlipBit(b, v.tile[b] - 1) == r
            && b < r < v.pages < |v.order|
            && r !in v.tile
            && v.order[b] == v.tile[b] <= v.m < |v.lists| - 1
  {
    assert v.Has(Sizes) && v.Has(Blocks) && v.Has(Entries);
    RightHalf(v.m, v.tile, b);
  }

  lemma SplitHolds(v: Image, b: nat)
    requires v.Holds() && InHand(v, b) && v.tile[b] > 0
    ensures var r := b + Pow2(v.tile[b] - 1);
            && r < |v.order| && v.m + 1 < |v.lists| && v.tile[b] <= v.m
            && Split(v, b, r).Holds()
  {
    var r := b + Pow2(v.tile[b] - 1);
    RightHalfInside(v, b);
    assert v.Has(Sizes) && v.Has(Entries) && v.Has(Membership);
    SplitBlocks(v, b);
    SplitEntries(v, b, r);
    SplitListed(v, b, r);
    Holding(Split(v, b, r));
  }

  lemma SplitBlocks(v: Image, b: nat)
    requires v.Holds() && InHand(v, b) && v.tile[b] > 0
    ensures Tiles(v.m, SplitTile(v.tile, b))
    ensures v.free <= v.tile.Keys
    ensures Coalesced(v.m, SplitTile(v.tile, b), v.free + {b + Pow2(v.tile[b] - 1)})
  {
    assert v.Has(Blocks);
    SplitKeepsTiles(v.m, v.tile, b);
    SplitKeepsCoalesced(v.m, v.tile, v.free, b);
  }

  lemma SplitEntries(v: Image, b: nat, r: nat)
    requires v.Has(Sizes) && v.Has(Entries) && InHand(v, b) && v.tile[b] > 0
    requires r == b + Pow2(v.tile[b] - 1) < v.pages && r !in v.tile
    ensures v.tile[b] <= v.m
    ensures Split(v, b, r).Has(Entries) && Split(v, b, r).Has(Sizes)
  {
  }

  lemma SplitListed(v: Image, b: nat, r: nat)
    requires v.Has(Sizes) && v.Has(Membership) && InHand(v, b) && v.m >= v.tile[b] > 0
    requires r == b + Pow2(v.tile[b] - 1) < v.pages && r !in v.tile
    ensures Split(v, b, r).Has(Membership)
  {
    var v' := Split(v, b, r);
    var l := v'.ListOf(r);
    assert v'.lists[l][|v.lists[l]|] == r;
    forall i | i in v'.free && i in v'.tile ensures i in v'.lists[v'.ListOf(i)] {
      if i != r { assert i in v.lists[v.ListOf(i)]; }
    }
  }

  // ---- Merging ----

  /** The buddy index is that of an entry, the zeroed one past the table at the highest order. */
  lemma BuddyIndex(v: Image, b: nat)
    requires v.Holds() && InHand(v, b)
    ensures b < v.pages < |v.order| == Pow2(v.m) + 1 && v.order[b] == v.tile[b] <= v.m
    ensures b + Pow2(v.tile[b]) <= Pow2(v.m)
    ensures 0 <= FlipBit(b, v.tile[b]) <= Pow2(v.m)
    ensures FlipBit(b, v.tile[b]) == b + Pow2(v.tile[b]) || FlipBit(b, v.tile[b]) == b - Pow2(v.tile[b])
    ensures v.tile[b] < v.m ==> FlipBit(b, v.tile[b]) < v.pages
    ensures v.tile[b] == v.m ==> FlipBit(b, v.tile[b]) == Pow2(v.m)
  {
    assert v.Has(Sizes) && v.Has(Blocks) && v.Has(Entries);
    assert Fits(v.m, v.tile, b);
    AlignedHalves(b, v.tile[b]);
    if v.tile[b] < v.m {
      BuddyInside(v.m, b, v.tile[b]);
      AlignedInside(v.m, b, v.tile[b]);
    } else {
      ZeroAligned(v.m + 1);
    }
  }

  /** A block whose buddy is free is not the whole pool. */
  lemma NotTopOrder(v: Image, b: nat)
    requires v.Holds() && InHand(v, b) && FlipBit(b, v.tile[b]) in v.free
    ensures v.tile[b] < v.m
  {
    BuddyIndex(v, b);
    OnSomeWhenFree(v, FlipBit(b, v.tile[b]));
  }

  /** The image after try_merge_buddy joined the block in hand with its listed buddy. */
  ghost function Merge(v: Image, left: nat, buddy: nat, at: nat): Image
    requires left in v.tile && buddy in v.tile && left < |v.order|
    requires v.ListOf(buddy) < |v.lists| && at < |v.lists[v.ListOf(buddy)]|
  {
    v.(order := v.order[left := v.tile[left] + 1],
       tile := MergeTile(v.tile, left),
       free := v.free - {buddy},
       lists := Cut(v.lists, v.ListOf(buddy), at))
  }

  lemma MergeHolds(v: Image, b: nat, buddy: nat, at: nat)
    requires v.Holds() && InHand(v, b) && v.tile[b] < v.m
    requires buddy == FlipBit(b, v.tile[b]) && buddy in v.free && buddy in v.tile && v.tile[buddy] == v.tile[b]
    requires v.ListOf(buddy) < |v.lists| && Distinct(v.lists)
    requires at < |v.lists[v.ListOf(buddy)]| && v.lists[v.ListOf(buddy)][at] == buddy
    ensures var left := if b <= buddy then b else buddy;
            && left < |v.order| && v.tile[left] == v.tile[b]
            && Merge(v, left, buddy, at).Holds()
            && InHand(Merge(v, left, buddy, at), left)
  {
    var left := if b <= buddy then b else buddy;
    assert v.Has(Sizes) && v.Has(Entries) && v.Has(Membership);
    MergeBlocks(v, b, buddy, left);
    MergeEntries(v, b, buddy, at);
    CutListed(v, buddy, at, Merge(v, left, buddy, at));
    Holding(Merge(v, left, buddy, at));
  }

  lemma MergeBlocks(v: Image, b: nat, buddy: nat, left: nat)
    requires v.Holds() && InHand(v, b) && v.tile[b] < v.m
    requires buddy == FlipBit(b, v.tile[b]) && buddy in v.free && buddy in v.tile && v.tile[buddy] == v.tile[b]
    requires left == if b <= buddy then b else buddy
    ensures left + Pow2(v.tile[left]) == if b <= buddy then buddy else b
    ensures Tiles(v.m, MergeTile(v.tile, left)) && v.free - {buddy} <= MergeTile(v.tile, left).Keys
    ensures Coalesced(v.m, MergeTile(v.tile, left), v.free - {buddy})
  {
    assert v.Has(Blocks);
    assert BuddyFree(v.tile, v.free, b);
    MergeKeepsCoalesced(v.m, v.tile, v.free, b);
  }

  lemma MergeEntries(v: Image, b: nat, buddy: nat, at: nat)
    requires v.Has(Sizes) && v.Has(Entries) && InHand(v, b) && v.tile[b] < v.m
    requires buddy in v.free && buddy in v.tile && v.tile[buddy] == v.tile[b]
    requires v.ListOf(buddy) < |v.lists| && at < |v.lists[v.ListOf(buddy)]|
    requires var left := if b <= buddy then b else buddy;
             left + Pow2(v.tile[left]) == if b <= buddy then buddy else b
    ensures var left := if b <= buddy then b else buddy;
            && left < |v.order|
            && Merge(v, left, buddy, at).Has(Entries) && Merge(v, left, buddy, at).Has(Sizes)
            && InHand(Merge(v, left, buddy, at), left)
  {
  }

  /** Unlisting one block, with any change to the blocks that are not free. */
  lemma CutListed(v: Image, b: nat, at: nat, v': Image)
    requires v.Has(Membership) && b in v.free && b in v.tile && Distinct(v.lists)
    requires at < |v.lists[v.ListOf(b)]| && v.lists[v.ListOf(b)][at] == b
    requires v'.m == v.m && v'.pages == v.pages && v'.free == v.free - {b}
    requires v'.lists == Cut(v.lists, v.ListOf(b), at)
    requires forall i | i in v'.free && i in v.tile :: i in v'.tile && v'.tile[i] == v.tile[i]
    requires forall i | i in v'.free && i in v'.tile :: i in v.tile
    ensures v'.Has(Membership)
  {
    var l := v.ListOf(b);
    CutKeepsDistinct(v.lists, l, at);
    forall i | i in v'.free && i in v'.tile ensures i in v'.lists[v'.ListOf(i)] {
      CutMembers(v.lists, l, at, v.ListOf(i), i);
    }
    forall k, i | 0 <= k <= v.m + 1 && i in v'.lists[k] ensures i in v'.free && i in v'.tile && v'.ListOf(i) == k {
      CutMembers(v.lists, l, at, k, i);
    }
  }

  lemma CutMembers(lists: seq<seq<nat>>, l: nat, at: nat, k: nat, i: nat)
    requires l < |lists| && at < |lists[l]| && k < |lists| && Distinct(lists)
    ensures i in Cut(lists, l, at)[k] <==> i in lists[k] && i != lists[l][at]
  {
    if i in lists[k] && i != lists[l][at] {
      var j :| 0 <= j < |lists[k]| && lists[k][j] == i;
      assert Cut(lists, l, at)[k][if k == l && j > at then j - 1 else j] == i;
    }
    if i in Cut(lists, l, at)[k] {
      var j :| 0 <= j < |Cut(lists, l, at)[k]| && Cut(lists, l, at)[k][j] == i;
      CutEntry(lists, l, at, k, j);
    }
  }

  // ---- Taking a block off its list and putting one on ----

  ghost function Take(v: Image, b: nat, at: nat): Image
    requires b in v.tile && v.ListOf(b) < |v.lists| && at < |v.lists[v.ListOf(b)]|
  {
    v.(free := v.free - {b}, lists := Cut(v.lists, v.ListOf(b), at))
  }

  lemma TakeHolds(v: Image, b: nat, at: nat)
    requires v.Holds() && b in v.free && b in v.tile && v.ListOf(b) < |v.lists| && Distinct(v.lists)
    requires at < |v.lists[v.ListOf(b)]| && v.lists[v.ListOf(b)][at] == b
    ensures Take(v, b, at).Holds()
  {
    var v' := Take(v, b, at);
    assert v.Has(Sizes) && v.Has(Blocks) && v.Has(Entries) && v.Has(Membership);
    TakeKeepsCoalesced(v.m, v.tile, v.free, b);
    CutListed(v, b, at, v');
    Holding(v');
  }

  ghost function Put(v: Image, b: nat): Image
    requires b in v.tile && v.ListOf(b) < |v.lists|
  {
    v.(free := v.free + {b}, lists := Append(v.lists, v.ListOf(b), b))
  }

  lemma PutHolds(v: Image, b: nat)
    requires v.Holds() && InHand(v, b)
    requires v.tile[b] < v.m && FlipBit(b, v.tile[b]) in v.free && FlipBit(b, v.tile[b]) in v.tile ==>
               v.tile[FlipBit(b, v.tile[b])] != v.tile[b]
    ensures v.ListOf(b) == v.tile[b] <= v.m && |v.lists| == v.m + 2
    ensures Put(v, b).Holds()
  {
    assert v.Has(Sizes) && v.Has(Blocks) && v.Has(Entries) && v.Has(Membership);
    PutKeepsCoalesced(v.m, v.tile, v.free, b);
    PutListed(v, b);
    Holding(Put(v, b));
  }

  lemma PutListed(v: Image, b: nat)
    requires v.Has(Membership) && InHand(v, b)
    ensures Put(v, b).Has(Membership)
  {
    var v', l := Put(v, b), v.ListOf(b);
    assert v'.lists[l][|v.lists[l]|] == b;
    forall i | i in v'.free && i in v'.tile ensures i in v'.lists[v'.ListOf(i)] {
      if i != b { assert i in v.lists[v.ListOf(i)]; }
    }
  }

  /** A block entry is on a list exactly when it starts a free block. */
  lemma OnSomeWhenFree(v: Image, b: nat)
    requires v.Holds()
    ensures OnSome(v.lists, b) <==> b in v.free
    ensures b in v.free ==> b in v.tile && v.ListOf(b) < |v.lists| == v.m + 2 && b in v.lists[v.ListOf(b)]
    ensures b in v.free ==> b < v.pages < |v.order| && v.order[b] == v.tile[b]
  {
    assert v.Has(Sizes) && v.Has(Membership) && v.Has(Entries);
    if OnSome(v.lists, b) {
      var l :| 0 <= l < |v.lists| && b in v.lists[l];
    }
  }

  /** A block on a free list: its order, its bounds, and that it is not waste. */
  lemma OnFreeList(v: Image, l: nat, i: nat)
    requires v.Holds() && l <= v.m && l < |v.lists| && i in v.lists[l]
    ensures i in v.free && i in v.tile && v.tile[i] == l && v.ListOf(i) == l
    ensures i < v.WasteStart() && i + Pow2(l) <= Pow2(v.m) && i !in v.live
  {
    assert v.Has(Sizes) && v.Has(Blocks) && v.Has(Membership);
    Bounds(v.m, v.tile, i);
  }

  /** A free block is on the list for its order, or on the waste list. */
  lemma FreeIsListed(v: Image, i: nat)
    requires v.Holds() && i in v.free
    ensures i in v.tile && v.tile[i] <= v.m && v.ListOf(i) < |v.lists| && i in v.lists[v.ListOf(i)]
  {
    assert v.Has(Sizes) && v.Has(Entries) && v.Has(Membership);
  }

  /** Taking a live block back into hand. */
  lemma ReleaseHolds(v: Image, b: nat)
    requires v.Holds() && b in v.live
    ensures v.(live := v.live - {b}).Holds() && InHand(v.(live := v.live - {b}), b)
  {
    assert v.Has(Sizes) && v.Has(Blocks) && v.Has(Entries) && v.Has(Membership);
    var v' := v.(live := v.live - {b});
    Holding(v');
  }

  /** Handing out the block in hand. */
  lemma HandOutHolds(v: Image, b: nat)
    requires v.Holds() && InHand(v, b)
    ensures v.(live := v.live + {b}).Holds()
  {
    assert v.Has(Sizes) && v.Has(Blocks) && v.Has(Entries) && v.Has(Membership);
    Holding(v.(live := v.live + {b}));
  }

  lemma LiveInside(v: Image)
    requires v.Holds()
    ensures v.live <= v.tile.Keys && v.free <= v.tile.Keys && v.free !! v.live
    ensures forall i | i in v.live :: i < v.WasteStart() <= Pow2(v.m)
  {
    assert v.Has(Sizes) && v.Has(Entries);
  }

  // ---- What a caller sees ----

  /** Every block handed out is one page. */
  ghost predicate SinglePages(live: Tile) {
    forall i | i in live :: live[i] == 0
  }

  /** With single pages only, the live pages are at most the pages below the waste. */
  lemma {:induction false} SinglePagesCount(tile: Tile, live: set<nat>, s: nat, n: nat)
    requires forall i | i in live && i in tile :: i < s && tile[i] == 0
    ensures PagesBelow(tile, live, n) <= if n <= s then n else s
  {
    if n > 0 {
      SinglePagesCount(tile, live, s, n - 1);
    }
  }

  /** When only waste blocks are listed and live blocks are single pages, every page below the waste is live. */
  lemma AllHandedOut(v: Image, p: nat)
    requires v.Holds() && v.free == v.tile.Keys - v.live && SinglePages(LiveTile(v.tile, v.free))
    requires |v.lists| == v.m + 2 && forall a | 0 <= a <= v.m :: v.lists[a] == []
    requires p < v.WasteStart()
    ensures p in v.live
  {
    assert v.Has(Sizes) && v.Has(Blocks) && v.Has(Membership);
    var h := HeadOf(v.m, v.tile, p);
    if h in v.free {
      FreeIsListed(v, h);
    } else {
      assert h in LiveTile(v.tile, v.free);
    }
  }

  /** A block in hand overlaps no live block. */
  lemma InHandIsApart(v: Image, b: nat, i: nat)
    requires v.Holds() && InHand(v, b) && i in v.live && i in v.tile
    ensures i + Pow2(v.tile[i]) <= b || b + Pow2(v.tile[b]) <= i
  {
    assert v.Has(Blocks);
    assert Apart(v.tile, b, i);
  }
}
