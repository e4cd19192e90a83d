// The pool object and its operations: split, merge, search, allocate, free.
//
// Pages are numbered from the start of the pool's usable memory. A pool manages
// N = 2^maxOrder page numbers of which `pages` are backed by memory; the rest,
// W = N - pages, is `max_order_waste`. Waste is marked from page s = pages - W on.
module BuddyPool {
  import opened Options
  import opened Dyadic
  import opened Tiling
  import opened BlockLists
  import opened Buddy

  const PAGE_SIZE: nat := 65536

  ghost predicate HasFreeBuddy(tile: Tile, free: set<nat>, b: nat)
    requires b in tile
  {
    FlipBit(b, tile[b]) in free && FlipBit(b, tile[b]) in tile && tile[FlipBit(b, tile[b])] == tile[b]
  }

  /** What joining `b` with its free buddy does to the tiling; `left` is the joined block. */
  ghost predicate Joined(tile: Tile, free: set<nat>, b: nat, buddy: nat, left: nat, tile': Tile, free': set<nat>) {
    && b in tile && buddy in tile && buddy in free && tile[buddy] == tile[b]
    && left == (if b <= buddy then b else buddy)
    && left + Pow2(tile[b]) == (if b <= buddy then buddy else b)
    && tile' == MergeTile(tile, left)
    && free' == free - {buddy}
  }

  lemma JoinedKeys(tile: Tile, free: set<nat>, live: set<nat>, b: nat, buddy: nat, left: nat, tile': Tile,
                   free': set<nat>)
    requires Joined(tile, free, b, buddy, left, tile', free') && b !in live && b !in free && free !! live
    requires tile.Keys == free + live + {b}
    ensures tile'.Keys == free' + live + {left}
    ensures forall i | i in live :: tile'[i] == tile[i]
    ensures left in tile' && tile'[left] == tile[b] + 1
  {
    var right := left + Pow2(tile[left]);
    assert tile'.Keys == tile.Keys - {right} + {left};
  }

  lemma SplitKeys(tile: Tile, b: nat, tile': Tile)
    requires b in tile && tile[b] > 0 && tile' == SplitTile(tile, b)
    requires b + Pow2(tile[b] - 1) !in tile
    ensures tile'.Keys == tile.Keys + {b + Pow2(tile[b] - 1)}
    ensures tile'[b] == tile[b] - 1
    ensures forall i | i in tile && i != b :: tile'[i] == tile[i]
  {
  }

  /** No block of `list` suits a request of `n` pages. */
  ghost predicate NoneSuits(waste: seq<bool>, list: seq<nat>, n: nat)
    requires 0 < n
  {
    forall i | i in list :: i + n <= |waste| && waste[i + n - 1]
  }

  /** Block `i` of `list` suits a request of `n` pages. */
  ghost predicate Fitting(waste: seq<bool>, list: seq<nat>, i: nat, n: nat)
    requires 0 < n
  {
    i in list && i + n <= |waste| && !waste[i + n - 1]
  }

  /**
   * At no place where a block for `n` pages can start below the waste does such a request
   * end past the metadata. (At page 0 it does not get so far, since it has more pages
   * than the pool.)
   */
  ghost predicate AlwaysBacked(total: nat, wasteStart: int, n: nat) {
    forall i: nat | Aligned(i, OrderFor(n)) && 0 < i < wasteStart :: i + n <= total
  }

  class Pool {
    const maxOrder: nat
    const total: nat // block entries with metadata; entries past them read as zero
    const pages: nat // pages backed by memory
    const order: array<nat>
    const isWaste: array<bool>
    const lists: Lists // list k: free blocks of order k; list maxOrder + 1: waste
    ghost const repr: set<object>
    var freePages: int
    var maxOrderFree: nat

    ghost var tile: Tile // the first page of every block, and the block's order
    ghost var live: set<nat> // the blocks handed out
    ghost var free: set<nat> // the blocks on a list

    ghost function View(): Image
      reads this, order, lists
    {
      Image(maxOrder, pages, order[..], lists.lists, tile, live, free)
    }

    ghost function WasteStart(): int { 2 * pages - Pow2(maxOrder) }

    /** The live blocks with their orders. */
    ghost function LiveMap(): Tile
      reads this
    {
      LiveTile(tile, tile.Keys - live)
    }

    ghost function Repr(): set<object> {
      {this, order, isWaste, lists, lists.next, lists.prev, lists.inList}
    }

    ghost predicate WasteMarked()
      reads isWaste
    {
      && isWaste.Length == Pow2(maxOrder) + 1
      && forall i | 0 <= i <= Pow2(maxOrder) :: isWaste[i] == (WasteStart() <= i < total)
    }

    ghost predicate Table()
      reads this, order, isWaste, lists, lists.next, lists.prev, lists.inList
    {
      && order != lists.next && order != lists.prev
      && isWaste != lists.inList
      && pages < total <= Pow2(maxOrder)
      && WasteMarked()
      && order.Length == lists.blocks == Pow2(maxOrder) + 1
      && |lists.lists| == maxOrder + 2
      && lists.Valid()
      && View().Holds()
    }

    ghost predicate HighestFree()
      reads this, lists
      requires |lists.lists| == maxOrder + 2
    {
      && maxOrderFree <= maxOrder
      && (forall k | maxOrderFree < k <= maxOrder :: lists.lists[k] == [])
      && (maxOrderFree == 0 || lists.lists[maxOrderFree] != [])
    }

    ghost predicate Counted()
      reads this
    {
      freePages == pages - PagesBelow(tile, live, Pow2(maxOrder))
    }

    ghost predicate Valid()
      reads this, order, isWaste, lists, lists.next, lists.prev, lists.inList
    {
      && Table()
      && free == tile.Keys - live
      && HighestFree()
      && Counted()
    }

    /** init_pool: one free block of the highest order, with the waste marked. */
    constructor (total: nat, pages: nat)
      requires 0 < pages < total && Pow2(OrderFor(total)) < 2 * pages
      ensures Valid() && fresh(Repr()) && repr == Repr()
      ensures this.total == total && this.pages == pages && maxOrder == OrderFor(total)
      ensures LiveMap() == map[] && freePages == pages && maxOrderFree == maxOrder
      ensures tile == map[0 := maxOrder]
    {
      var m := OrderFor(total);
      var n := Pow2(m);
      var o := new nat[n + 1](i => if i == 0 then m else 0);
      var w := new bool[n + 1](i => 2 * pages - n <= i < total);
      var l := new Lists(n + 1, m + 2);
      l.PushBack(m, 0);
      this.maxOrder, this.total, this.pages := m, total, pages;
      order, isWaste, lists := o, w, l;
      repr := {this, o, w, l, l.next, l.prev, l.inList};
      freePages, maxOrderFree := pages, m;
      tile, live, free := map[0 := m], {}, {0};
      new;
      WholeImage(View());
      PagesEmpty(tile, Pow2(m));
    }

    method SplitBlock(b: nat)
      requires Table() && InHand(View(), b) && tile[b] > 0
      modifies this`tile, this`free, order, lists, lists.next, lists.prev, lists.inList
      ensures Table() && InHand(View(), b) && order[b] == tile[b]
      ensures old(tile)[b] > 0
      ensures tile == SplitTile(old(tile), b)
      ensures b + Pow2(old(tile)[b] - 1) !in old(tile)
      ensures free == old(free) + {b + Pow2(old(tile)[b] - 1)}
      ensures forall k | old(tile)[b] <= k <= maxOrder :: lists.lists[k] == old(lists.lists[k])
    {
      RightHalfInside(View(), b);
      SplitHolds(View(), b);
      ghost var r := b + Pow2(tile[b] - 1);
      OnSomeWhenFree(View(), r);
      Halve(b, r);
    }

    /** The writes of split_block. */
    method Halve(b: nat, ghost r: nat)
      requires Table() && b in tile && 0 < tile[b] <= maxOrder && b < pages && order[b] == tile[b]
      requires r < pages && r == FlipBit(b, tile[b] - 1) && !OnSome(lists.lists, r)
      modifies this`tile, this`free, order, lists, lists.next, lists.prev, lists.inList
      ensures lists.Valid() && View() == Split(old(View()), b, r)
    {
      ghost var k := tile[b] - 1;
      order[b] := order[b] - 1;
      var buddy := FlipBit(b, order[b]);
      order[buddy] := order[b];
      if !isWaste[buddy] {
        lists.PushBack(order[buddy], buddy);
      } else {
        lists.PushBack(maxOrder + 1, buddy);
      }
      tile := SplitTile(tile, b);
      free := free + {buddy};
      assert order[..] == old(order[..])[b := k][r := k];
    }

    /** Takes a free buddy off its list and lets the lower of the two blocks absorb the other. */
    method Join(b: nat, buddy: nat) returns (left: nat)
      requires Table() && InHand(View(), b) && tile[b] < maxOrder
      requires buddy == FlipBit(b, tile[b]) && buddy in free && buddy in tile && tile[buddy] == tile[b]
      modifies this`tile, this`free, order, lists, lists.next, lists.prev, lists.inList
      ensures Table()
      ensures Joined(old(tile), old(free), b, buddy, left, tile, free)
      ensures InHand(View(), left)
      ensures forall k | 0 <= k <= maxOrder && k != old(tile)[b] :: lists.lists[k] == old(lists.lists[k])
    {
      OnSomeWhenFree(View(), buddy);
      BuddyIndex(View(), b);
      ghost var l := View().ListOf(buddy);
      ghost var v := View();
      lists.DistinctLists();
      ghost var at := lists.Remove(buddy, l);
      MergeHolds(v, b, buddy, at);
      left := if b <= buddy then b else buddy;
      order[left] := order[left] + 1;
      tile := MergeTile(tile, left);
      free := free - {buddy};
      assert View() == Merge(v, left, buddy, at);
    }

    /** Joins the block in hand with its buddy when that is free at the same order. */
    method TryMergeBuddy(b: nat) returns (merged: Option<nat>)
      requires Table() && InHand(View(), b)
      modifies this`tile, this`free, order, lists, lists.next, lists.prev, lists.inList
      ensures Table()
      ensures merged.None? ==>
                && View() == old(View())
                && (tile[b] == maxOrder || !HasFreeBuddy(tile, free, b))
      ensures merged.Some? ==>
                && b in old(tile) && old(tile)[b] < maxOrder
                && Joined(old(tile), old(free), b, FlipBit(b, old(tile)[b]), merged.value, tile, free)
                && InHand(View(), merged.value)
                && (forall k | 0 <= k <= maxOrder && k != old(tile)[b] :: lists.lists[k] == old(lists.lists[k]))
    {
      BuddyIndex(View(), b);
      var index := b;
      var buddyIndex := FlipBit(index, order[b]);
      if buddyIndex > pages + (Pow2(maxOrder) - pages) {
        return None;
      }
      OnSomeWhenFree(View(), buddyIndex);
      var inList := lists.IsMarked(buddyIndex);
      if order[buddyIndex] == order[b] && inList {
        NotTopOrder(View(), b);
        var left := Join(b, buddyIndex);
        merged := Some(left);
      } else {
        merged := None;
      }
    }

    /** The merge loop of free_block: merges the block in hand as far as free buddies go. */
    method MergeAll(b: nat) returns (freeBlock: nat)
      requires Table() && InHand(View(), b) && tile.Keys == free + live + {b}
      modifies this`tile, this`free, order, lists, lists.next, lists.prev, lists.inList
      ensures Table() && InHand(View(), freeBlock) && tile.Keys == free + live + {freeBlock}
      ensures tile[freeBlock] == maxOrder || !HasFreeBuddy(tile, free, freeBlock)
      ensures forall i | i in live :: i in old(tile) && i in tile && tile[i] == old(tile)[i]
      ensures forall k | tile[freeBlock] <= k <= maxOrder :: lists.lists[k] == old(lists.lists[k])
    {
      freeBlock := b;
      ghost var start := tile;
      LiveInside(View());
      var merged := TryMergeBuddy(freeBlock);
      if merged.Some? { MergedStep(start, old(free), b, merged.value); }
      while merged.Some?
        invariant Table()
        invariant var inHand := if merged.Some? then merged.value else freeBlock;
                  && InHand(View(), inHand)
                  && tile.Keys == free + live + {inHand}
                  && (forall k | tile[inHand] <= k <= maxOrder :: lists.lists[k] == old(lists.lists[k]))
        invariant merged.None? ==> tile[freeBlock] == maxOrder || !HasFreeBuddy(tile, free, freeBlock)
        invariant forall i | i in live :: i in start && i in tile && tile[i] == start[i]
        invariant merged.Some? ==> tile[merged.value] <= maxOrder
        decreases if merged.Some? then maxOrder - tile[merged.value] + 1 else 0
      {
        freeBlock := merged.value;
        ghost var tile0, free0 := tile, free;
        LiveInside(View());
        merged := TryMergeBuddy(freeBlock);
        if merged.Some? { MergedStep(tile0, free0, freeBlock, merged.value); }
      }
    }

    lemma MergedStep(tile0: Tile, free0: set<nat>, b: nat, left: nat)
      requires b in tile0 && b !in live && b !in free0 && free0 !! live && tile0.Keys == free0 + live + {b}
      requires Joined(tile0, free0, b, FlipBit(b, tile0[b]), left, tile, free)
      ensures tile.Keys == free + live + {left}
      ensures forall i | i in live :: i in tile0 && i in tile && tile[i] == tile0[i]
      ensures left in tile && tile[left] == tile0[b] + 1
    {
      JoinedKeys(tile0, free0, live, b, FlipBit(b, tile0[b]), left, tile, free);
    }

    /** The end of free_block: lists the merged block. */
    method ListBlock(freeBlock: nat)
      requires Table() && InHand(View(), freeBlock)
      requires tile[freeBlock] == maxOrder || !HasFreeBuddy(tile, free, freeBlock)
      requires maxOrderFree <= maxOrder
      requires forall k | maxOrderFree < k <= maxOrder && tile[freeBlock] <= k :: lists.lists[k] == []
      requires maxOrderFree == 0 || maxOrderFree < tile[freeBlock] || lists.lists[maxOrderFree] != []
      modifies this`free, this`maxOrderFree, lists, lists.next, lists.prev, lists.inList
      ensures Table() && HighestFree()
      ensures free == old(free) + {freeBlock}
    {
      PutHolds(View(), freeBlock);
      OnSomeWhenFree(View(), freeBlock);
      BuddyIndex(View(), freeBlock);
      ghost var after := Put(View(), freeBlock);
      if !isWaste[freeBlock] {
        maxOrderFree := if maxOrderFree > order[freeBlock] then maxOrderFree else order[freeBlock];
        lists.PushBack(order[freeBlock], freeBlock);
      } else {
        assert false; // merging only moves the head to the left, and it was not waste
      }
      free := free + {freeBlock};
      assert View() == after;
    }

    /** free_block: merges as far as free buddies go, then lists the result. */
    method FreeBlock(b: nat)
      requires Valid() && b in live
      modifies this`tile, this`live, this`free, this`freePages, this`maxOrderFree
      modifies order, lists, lists.next, lists.prev, lists.inList
      ensures Valid()
      ensures LiveMap() == old(LiveMap()) - {b}
      ensures b in old(LiveMap()) && freePages == old(freePages) + Pow2(old(LiveMap())[b])
    {
      LiveInside(View());
      ReleaseHolds(View(), b);
      BuddyIndex(View().(live := live - {b}), b);
      ghost var tile0, live0 := tile, live;
      live := live - {b};
      freePages := freePages + Pow2(order[b]);
      PagesInsert(tile, live, live0, b, Pow2(maxOrder));

      var freeBlock := MergeAll(b);
      PagesSame(tile0, live, tile, live, Pow2(maxOrder));
      LiveInside(View());
      ListBlock(freeBlock);
    }

    /** Whether a block can serve a request of `n` pages, judged by the last page requested. */
    predicate Suits(i: nat, n: nat)
      requires 0 < n && i + n <= isWaste.Length
      reads isWaste
    {
      !isWaste[i + n - 1]
    }

    /**
     * pool_find_block: the smallest order first, and within an order the block
     * listed last; the block is taken off its list.
     */
    method FindBlock(k: nat, n: nat) returns (found: Option<nat>)
      requires Table() && k <= maxOrder && 0 < n <= Pow2(k)
      modifies this`free, lists, lists.next, lists.prev, lists.inList
      ensures Table()
      ensures found.None? ==>
                View() == old(View()) && forall a | k <= a <= maxOrder :: NoneSuits(isWaste[..], lists.lists[a], n)
      ensures found.Some? ==>
                && InHand(View(), found.value) && k <= tile[found.value] <= maxOrder
                && found.value in old(free) && free == old(free) - {found.value}
                && found.value in old(lists.lists)[tile[found.value]]
                && found.value + n <= isWaste.Length && Suits(found.value, n)
                && (forall a | k <= a < tile[found.value] :: NoneSuits(isWaste[..], old(lists.lists)[a], n))
                && (forall a | 0 <= a <= maxOrder && a != tile[found.value] :: lists.lists[a] == old(lists.lists[a]))
    {
      for a := k to maxOrder + 1
        invariant View() == old(View()) && Table()
        invariant forall l | k <= l < a :: NoneSuits(isWaste[..], lists.lists[l], n)
      {
        Pow2Monotone(k, a);
        found := SearchList(a, n);
        if found.Some? {
          OnFreeList(View(), a, found.value);
          TakeBlock(found.value, a);
          return;
        }
      }
      found := None;
    }

    /** Walks list `a` backwards from its head to the first suitable block. */
    method SearchList(a: nat, n: nat) returns (found: Option<nat>)
      requires Table() && a <= maxOrder && 0 < n <= Pow2(a)
      ensures found.None? ==> NoneSuits(isWaste[..], lists.lists[a], n)
      ensures found.Some? ==>
                && found.value in lists.lists[a]
                && found.value + n <= isWaste.Length && Suits(found.value, n)
    {
      var head := lists.blocks + a;
      ghost var j := |lists.lists[a]|;
      var block := head;
      var before := lists.Previous(block, a, j);
      while before != head
        invariant 0 <= j <= |lists.lists[a]|
        invariant block == At(lists.blocks, lists.lists, a, j)
        invariant before == At(lists.blocks, lists.lists, a, j - 1) && (j > 0 ==> before < lists.blocks)
        invariant forall i | j <= i < |lists.lists[a]| ::
                    lists.lists[a][i] + n <= isWaste.Length && !Suits(lists.lists[a][i], n)
        decreases j
      {
        block := before;
        j := j - 1;
        assert block in lists.lists[a];
        OnFreeList(View(), a, block);
        if Suits(block, n) {
          return Some(block);
        }
        before := lists.Previous(block, a, j);
      }
      found := None;
    }

    method TakeBlock(b: nat, ghost a: nat)
      requires Table() && a <= maxOrder && b in lists.lists[a]
      modifies this`free, lists, lists.next, lists.prev, lists.inList
      ensures Table() && InHand(View(), b) && tile[b] == a
      ensures b in old(free) && free == old(free) - {b}
      ensures forall k | 0 <= k <= maxOrder && k != a :: lists.lists[k] == old(lists.lists[k])
    {
      ghost var v := View();
      OnFreeList(v, a, b);
      lists.DistinctLists();
      ghost var at := lists.Remove(b, a);
      TakeHolds(v, b, at);
      free := free - {b};
      assert View() == Take(v, b, at);
    }

    /** Splits the block in hand down to order `k`. */
    method SplitDown(b: nat, k: nat)
      requires Table() && InHand(View(), b) && k <= tile[b] && tile.Keys == free + live + {b}
      modifies this`tile, this`free, order, lists, lists.next, lists.prev, lists.inList
      ensures Table() && InHand(View(), b) && tile[b] == k && tile.Keys == free + live + {b}
      ensures forall i | i in live :: i in old(tile) && i in tile && tile[i] == old(tile)[i]
      ensures b in old(tile) && forall l | old(tile)[b] <= l <= maxOrder :: lists.lists[l] == old(lists.lists[l])
    {
      LiveInside(View());
      BuddyIndex(View(), b);
      while order[b] > k
        invariant Table() && InHand(View(), b) && k <= tile[b] <= old(tile)[b] && order[b] == tile[b]
        invariant tile.Keys == free + live + {b}
        invariant forall i | i in live :: i in old(tile) && i in tile && tile[i] == old(tile)[i]
        invariant forall l | old(tile)[b] <= l <= maxOrder :: lists.lists[l] == old(lists.lists[l])
        decreases tile[b]
      {
        ghost var tile0 := tile;
        SplitBlock(b);
        SplitKeys(tile0, b, tile);
      }
    }

    /** The end of buddy_allocate's bookkeeping: lowers maxOrderFree past the emptied lists. */
    method LowerMaxOrderFree()
      requires Table() && maxOrderFree <= maxOrder
      requires forall k | maxOrderFree < k <= maxOrder :: lists.lists[k] == []
      modifies this`maxOrderFree
      ensures Table() && HighestFree()
    {
      var empty := lists.Empty(maxOrderFree);
      while maxOrderFree > 0 && empty
        invariant Table() && maxOrderFree <= maxOrder
        invariant empty == (lists.lists[maxOrderFree] == [])
        invariant forall k | maxOrderFree < k <= maxOrder :: lists.lists[k] == []
      {
        maxOrderFree := maxOrderFree - 1;
        empty := lists.Empty(maxOrderFree);
      }
    }

    /** Marks the block in hand as live. */
    ghost method HandOut(b: nat, n: nat, before: Tile)
      requires Table() && InHand(View(), b) && 0 < n && tile[b] == OrderFor(n) && tile.Keys == free + live + {b}
      requires before.Keys == live && forall i | i in live :: i in tile && before[i] == tile[i]
      requires b + n <= isWaste.Length && Suits(b, n)
      modifies this`live
      ensures Table() && live == old(live) + {b} && free == tile.Keys - live
      ensures HandedOut(before, b, n)
    {
      LiveInside(View());
      BuddyIndex(View(), b);
      forall i | i in live ensures i + Pow2(tile[i]) <= b || b + Pow2(tile[b]) <= i {
        InHandIsApart(View(), b, i);
      }
      HandOutHolds(View(), b);
      ghost var after := View().(live := live + {b});
      live := live + {b};
      assert View() == after;
    }

    /** A free region that a request of `n` pages can be cut from: (i, a) passes the test of pool_find_block. */
    ghost predicate Candidate(before: Tile, i: nat, a: nat, n: nat) {
      && OrderFor(n) <= a && MaximalFree(maxOrder, before, i, a)
      && i < WasteStart() && (i + n <= WasteStart() || i + n > total)
    }

    /** No smaller free region than the one at `b` would do. */
    ghost predicate BestFit(before: Tile, b: nat, n: nat) {
      exists a :: Candidate(before, b, a, n) && forall i: nat, a': nat | a' < a :: !Candidate(before, i, a', n)
    }

    ghost predicate HasCandidate(before: Tile, n: nat) {
      exists i: nat, a: nat :: Candidate(before, i, a, n)
    }

    /** A request of `n` pages will be served. */
    ghost predicate CanServe(n: nat)
      reads this
    {
      0 < n <= freePages && OrderFor(n) < maxOrder && HasCandidate(LiveMap(), n)
    }

    /** The candidates are the listed blocks that pass the test. */
    lemma CandidateIsListed(i: nat, a: nat, n: nat)
      requires Valid() && 0 < n
      ensures Candidate(LiveMap(), i, a, n) <==>
                OrderFor(n) <= a <= maxOrder && Fitting(isWaste[..], lists.lists[a], i, n)
    {
      if a <= maxOrder {
        ListsAreCanonical(a, i);
        if OrderFor(n) <= a && i in lists.lists[a] {
          OnFreeList(View(), a, i);
          Pow2Monotone(OrderFor(n), a);
          SuitsExactly(i, n);
        }
      }
    }

    lemma NoCandidates(n: nat)
      requires Valid() && 0 < n
      requires forall a | OrderFor(n) <= a <= maxOrder :: NoneSuits(isWaste[..], lists.lists[a], n)
      ensures !HasCandidate(LiveMap(), n)
    {
      forall i: nat, a: nat ensures !Candidate(LiveMap(), i, a, n) {
        CandidateIsListed(i, a, n);
      }
    }

    /** The part of buddy_allocate that depends on the request only through its pages. */
    method AllocatePages(n: nat) returns (result: Option<nat>)
      requires Valid() && 0 < n && OrderFor(n) <= maxOrderFree
      modifies this`tile, this`live, this`free, this`freePages, this`maxOrderFree
      modifies order, lists, lists.next, lists.prev, lists.inList
      ensures Valid()
      ensures result.None? ==> View() == old(View()) && freePages == old(freePages) && maxOrderFree == old(maxOrderFree)
      ensures result.None? ==> forall a | OrderFor(n) <= a <= maxOrder :: NoneSuits(isWaste[..], lists.lists[a], n)
      ensures result.Some? ==>
                HandedOut(old(LiveMap()), result.value, n) && freePages == old(freePages) - Pow2(OrderFor(n))
      ensures result.Some? <==> HasCandidate(old(LiveMap()), n)
      ensures result.Some? ==> BestFit(old(LiveMap()), result.value, n)
    {
      LiveInside(View());
      ghost var before, waste, lists0 := LiveMap(), isWaste[..], lists.lists;
      forall i: nat, a: nat
        ensures Candidate(before, i, a, n) <==> OrderFor(n) <= a <= maxOrder && Fitting(waste, lists0[a], i, n)
      {
        CandidateIsListed(i, a, n);
      }
      var block := FindBlock(OrderFor(n), n);
      if block.None? {
        NoCandidates(n);
        return None;
      }
      assert Fitting(waste, lists0[tile[block.value]], block.value, n);
      BestIsFound(before, waste, lists0, block.value, tile[block.value], n);
      LiveInside(View());
      Serve(block.value, n);
      result := block;
    }

    lemma BestIsFound(before: Tile, waste: seq<bool>, lists0: seq<seq<nat>>, b: nat, k: nat, n: nat)
      requires 0 < n && |lists0| == maxOrder + 2 && OrderFor(n) <= k <= maxOrder
      requires forall i: nat, a: nat ::
                 Candidate(before, i, a, n) <==> OrderFor(n) <= a <= maxOrder && Fitting(waste, lists0[a], i, n)
      requires Fitting(waste, lists0[k], b, n)
      requires forall a | OrderFor(n) <= a < k :: NoneSuits(waste, lists0[a], n)
      ensures BestFit(before, b, n) && HasCandidate(before, n)
    {
      assert Candidate(before, b, k, n);
    }

    /** Cuts the block in hand down to the request and hands it out. */
    method Serve(b: nat, n: nat)
      requires Table() && InHand(View(), b) && tile.Keys == free + live + {b}
      requires 0 < n && OrderFor(n) <= tile[b] <= maxOrderFree <= maxOrder
      requires forall k | maxOrderFree < k <= maxOrder :: lists.lists[k] == []
      requires Counted() && b + n <= isWaste.Length && Suits(b, n)
      modifies this`tile, this`live, this`free, this`freePages, this`maxOrderFree
      modifies order, lists, lists.next, lists.prev, lists.inList
      ensures Valid()
      ensures HandedOut(LiveTile(old(tile), old(tile).Keys - old(live)), b, n)
      ensures freePages == old(freePages) - Pow2(OrderFor(n))
    {
      ghost var tile0, live0 := tile, live;
      SplitDown(b, OrderFor(n));
      LowerMaxOrderFree();
      BuddyIndex(View(), b);
      freePages := freePages - Pow2(order[b]);
      PagesOneMore(tile0, live0, tile, b, Pow2(maxOrder));
      HandOut(b, n, LiveTile(tile0, tile0.Keys - live0));
    }

    /** A request of `n` pages was served at page `b`, next to the live blocks `before`. */
    ghost predicate HandedOut(before: Tile, b: nat, n: nat)
      reads this
    {
      && b !in before && LiveMap() == before[b := OrderFor(n)]
      && b < WasteStart()
      && (forall i | i in before :: i + Pow2(before[i]) <= b || b + Pow2(OrderFor(n)) <= i)
      && (b + n <= WasteStart() || b + n > total)
    }

    /** buddy_allocate for `size` bytes: the first page of the block, or None. */
    method Allocate(size: nat) returns (result: Option<nat>)
      requires Valid()
      modifies this`tile, this`live, this`free, this`freePages, this`maxOrderFree
      modifies order, lists, lists.next, lists.prev, lists.inList
      ensures Valid()
      ensures result.None? ==> View() == old(View()) && freePages == old(freePages) && maxOrderFree == old(maxOrderFree)
      ensures result.Some? ==> 0 < size && HandedOut(old(LiveMap()), result.value, PagesFor(size))
      ensures result.Some? ==> freePages == old(freePages) - Pow2(OrderFor(PagesFor(size)))
      ensures 0 < size <= PAGE_SIZE && SinglePages(old(LiveMap())) ==>
                (result.None? <==> forall p: nat | p < WasteStart() :: p in old(LiveMap()))
      ensures result.Some? <==> old(CanServe(PagesFor(size)))
      ensures result.Some? ==> BestFit(old(LiveMap()), result.value, PagesFor(size))
      ensures result.Some? && AlwaysBacked(total, WasteStart(), PagesFor(size)) ==>
                result.value + PagesFor(size) <= WasteStart() < pages
    {
      if size == 0 {
        return None;
      }
      var n := (size + (PAGE_SIZE - 1)) / PAGE_SIZE;
      var k := OrderFor(n);
      SinglePagesLeave();
      if !(maxOrderFree >= k && freePages >= n) {
        if maxOrderFree < k {
          NoCandidates(n);
        }
        return None;
      }
      if k == maxOrder {
        LargestRequest(size, n);
        if size > Pow2(k) - (Pow2(maxOrder) - pages) {
          return None;
        }
      }
      result := AllocatePages(n);
      if result.Some? && AlwaysBacked(total, WasteStart(), n) {
        ServedIsBacked(old(LiveMap()), result.value, n);
      }
      if n == 1 && SinglePages(old(LiveMap())) && result.None? {
        NothingLeft();
      }
    }

    /** With single pages only, the counter stays above the waste. */
    lemma SinglePagesLeave()
      requires Valid()
      ensures SinglePages(LiveMap()) ==> freePages >= 1
      ensures maxOrder >= 1
    {
      LiveInside(View());
      assert View().Has(Aspect.Sizes);
      if SinglePages(LiveMap()) {
        forall i | i in live && i in tile ensures i < WasteStart() && tile[i] == 0 {
          assert i in LiveMap();
        }
        SinglePagesCount(tile, live, WasteStart(), Pow2(maxOrder));
      }
    }

    lemma NothingLeft()
      requires Valid() && forall a | 0 <= a <= maxOrder :: NoneSuits(isWaste[..], lists.lists[a], 1)
      requires SinglePages(LiveMap())
      ensures forall p: nat | p < WasteStart() :: p in LiveMap()
    {
      forall a | 0 <= a <= maxOrder ensures lists.lists[a] == [] {
        assert NoneSuits(isWaste[..], lists.lists[a], 1);
        if lists.lists[a] != [] {
          var i := lists.lists[a][0];
          assert i in lists.lists[a];
          OnFreeList(View(), a, i);
        }
      }
      forall p: nat | p < WasteStart() ensures p in LiveMap() {
        AllHandedOut(View(), p);
        LiveInside(View());
      }
    }

    /** A request for more than half the pool has more bytes than the pool has pages. */
    lemma LargestRequest(size: nat, n: nat)
      requires Valid() && n == PagesFor(size) && OrderFor(n) == maxOrder >= 1
      ensures size > pages
    {
      assert View().Has(Aspect.Sizes);
      assert Pow2(maxOrder - 1) < n;
    }

    /**
     * buddy_deallocate of the byte offset `ptr` from the start of the pool. An address
     * that is not page aligned or not in the pool is ignored.
     */
    method Deallocate(ptr: int)
      requires Valid() && (InPool(ptr) ==> ptr / PAGE_SIZE in live)
      modifies this`tile, this`live, this`free, this`freePages, this`maxOrderFree
      modifies order, lists, lists.next, lists.prev, lists.inList
      ensures Valid()
      ensures InPool(ptr) ==>
                && LiveMap() == old(LiveMap()) - {ptr / PAGE_SIZE}
                && ptr / PAGE_SIZE in old(LiveMap())
                && freePages == old(freePages) + Pow2(old(LiveMap())[ptr / PAGE_SIZE])
      ensures !InPool(ptr) ==> View() == old(View()) && freePages == old(freePages) && maxOrderFree == old(maxOrderFree)
    {
      if ptr % PAGE_SIZE != 0 {
        return;
      }
      if !(0 <= ptr < pages * PAGE_SIZE) {
        return;
      }
      FreeBlock(ptr / PAGE_SIZE);
    }

    predicate InPool(ptr: int) {
      ptr % PAGE_SIZE == 0 && 0 <= ptr < pages * PAGE_SIZE
    }

    // ---- What holds of every pool state ----

    /** The test of pool_find_block, exactly: it misses waste past the end of the metadata. */
    lemma SuitsExactly(i: nat, n: nat)
      requires Valid() && i < WasteStart() && 0 < n && i + n < isWaste.Length
      ensures Suits(i, n) <==> i + n <= WasteStart() || i + n > total
    {
    }

    /** A served request has memory behind all its pages if every place it could be served at is caught by the test. */
    lemma ServedIsBacked(before: Tile, b: nat, n: nat)
      requires Valid() && HandedOut(before, b, n) && 0 < n <= pages && AlwaysBacked(total, WasteStart(), n)
      ensures b + n <= WasteStart() < pages
    {
      assert View().Has(Aspect.Sizes) && View().Has(Blocks);
      assert b in LiveMap();
      assert Fits(maxOrder, tile, b);
    }

    /** The live blocks start below the waste. */
    lemma LiveBelow()
      requires Valid()
      ensures forall i | i in LiveMap() :: i in live && i < WasteStart() < pages
    {
      assert View().Has(Aspect.Sizes);
      LiveInside(View());
    }

    /** free_pages is the total that print_allocator calculates: the listed pages less the waste. */
    lemma FreePagesIsListedPages()
      requires Valid()
      ensures freePages == PagesBelow(tile, free, Pow2(maxOrder)) - (Pow2(maxOrder) - pages)
    {
      assert View().Has(Blocks);
      LiveInside(View());
      AllPages(maxOrder, tile);
      PagesUnion(tile, live, free, Pow2(maxOrder));
      assert live + free == tile.Keys;
    }

    /** The blocks of each list are the maximal free regions of its order, or the waste ones. */
    lemma ListsAreCanonical(l: nat, i: nat)
      requires Valid() && l <= maxOrder + 1
      ensures l <= maxOrder ==> (i in lists.lists[l] <==> i < WasteStart() && MaximalFree(maxOrder, LiveMap(), i, l))
      ensures l == maxOrder + 1 ==>
                (i in lists.lists[l] <==> i >= WasteStart() && exists k :: MaximalFree(maxOrder, LiveMap(), i, k))
    {
      assert View().Has(Blocks) && View().Has(Membership);
      if i in lists.lists[l] {
        FreeBlocksAreCanonical(maxOrder, tile, free, i, tile[i]);
        assert MaximalFree(maxOrder, LiveMap(), i, tile[i]);
      }
      forall k | MaximalFree(maxOrder, LiveMap(), i, k) ensures i in free && tile[i] == k {
        FreeBlocksAreCanonical(maxOrder, tile, free, i, k);
      }
      if i in free {
        FreeIsListed(View(), i);
      }
    }
  }

  /** The same blocks, and the same blocks on each list. */
  ghost predicate SameBlocks(v: Image, w: Image) {
    && v.m == w.m && v.pages == w.pages && |v.lists| == |w.lists|
    && v.tile == w.tile && v.live == w.live && v.free == w.free
    && forall l, i | 0 <= l < |v.lists| :: i in v.lists[l] <==> i in w.lists[l]
  }

  /**
   * History independence: two pools of one size with the same live blocks have the
   * same blocks on each list, whatever was allocated and freed on the way.
   */
  lemma HistoryIndependence(v: Image, w: Image)
    requires v.Holds() && v.free == v.tile.Keys - v.live
    requires w.Holds() && w.free == w.tile.Keys - w.live
    requires v.m == w.m && v.pages == w.pages
    requires LiveTile(v.tile, v.free) == LiveTile(w.tile, w.free)
    ensures SameBlocks(v, w)
  {
    assert v.Has(Blocks) && w.Has(Blocks) && v.Has(Aspect.Sizes) && w.Has(Aspect.Sizes);
    TilingIsDeterminedByLive(v.m, v.tile, v.free, w.tile, w.free);
    assert LiveTile(v.tile, v.free).Keys == v.live && LiveTile(w.tile, w.free).Keys == w.live;
    forall l, i | 0 <= l < |v.lists| ensures i in v.lists[l] <==> i in w.lists[l] {
      ListsAgree(v, w, l, i);
      ListsAgree(w, v, l, i);
    }
  }

  lemma ListsAgree(v: Image, w: Image, l: nat, i: nat)
    requires v.Holds() && w.Holds() && v.m == w.m && v.pages == w.pages
    requires v.tile == w.tile && v.free == w.free && l <= v.m + 1 == |v.lists| - 1 == |w.lists| - 1
    ensures i in v.lists[l] ==> i in w.lists[l]
  {
    assert v.Has(Membership);
    if i in v.lists[l] {
      FreeIsListed(w, i);
    }
  }

  /** The counters are determined with the lists: free_pages and max_order_free. */
  twostate lemma CountersFollow(p: Pool)
    requires old(p.Valid()) && p.Valid() && SameBlocks(old(p.View()), p.View())
    ensures p.freePages == old(p.freePages) && p.maxOrderFree == old(p.maxOrderFree)
  {
    HighestAgree(p.maxOrder, old(p.lists.lists), old(p.maxOrderFree), p.lists.lists, p.maxOrderFree);
    HighestAgree(p.maxOrder, p.lists.lists, p.maxOrderFree, old(p.lists.lists), old(p.maxOrderFree));
  }

  lemma HighestAgree(m: nat, lists: seq<seq<nat>>, k: nat, lists': seq<seq<nat>>, k': nat)
    requires |lists| == m + 2 == |lists'| && k <= m && k' <= m
    requires forall l, i | 0 <= l < |lists| :: i in lists[l] <==> i in lists'[l]
    requires k == 0 || lists[k] != []
    requires forall l | k' < l <= m :: lists'[l] == []
    ensures k <= k'
  {
    if k > 0 {
      assert lists[k][0] in lists[k];
    }
  }

  /** Freeing everything, in any order, restores the one block init_pool started from. */
  lemma AllFreed(p: Pool)
    requires p.Valid() && p.LiveMap() == map[]
    ensures p.tile == map[0 := p.maxOrder] && p.free == {0}
    ensures p.freePages == p.pages && p.maxOrderFree == p.maxOrder
  {
    assert p.View().Has(Blocks) && p.View().Has(Aspect.Sizes);
    LiveInside(p.View());
    assert p.LiveMap().Keys == p.live == {};
    NothingLive(p.maxOrder, p.tile, p.free);
    PagesEmpty(p.tile, Pow2(p.maxOrder));
    FreeIsListed(p.View(), 0);
  }

  /** The pages a request of `size` bytes rounds up to. */
  function PagesFor(size: nat): nat {
    (size + (PAGE_SIZE - 1)) / PAGE_SIZE
  }

  /** They are the fewest pages that hold so many bytes. */
  lemma FewestPages(size: nat, n: nat)
    ensures PagesFor(size) <= n <==> size <= n * PAGE_SIZE
  {
  }
}
