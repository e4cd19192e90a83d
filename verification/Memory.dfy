// The memory manager: two buddy pools, the MMU, the heaps of the thread structures
// and the framebuffers, and the operations that change them, one at a time.
module Memory {
  import opened Options
  import opened Dyadic
  import opened Tiling
  import opened BuddyPool
  import opened TwoRanges
  import opened Frames
  import opened Mmu
  import opened AddressSpaces
  import opened Framebuffers

  /** The largest framebuffer: FRAMEBUFFER_MAX_W by FRAMEBUFFER_MAX_H of four bytes each. */
  const MAX_BYTES: nat := 720 * 720 * 4

  /** Its pages, and the guard page. */
  const MAX_RANGE: nat := 34

  /** The steps that change memory, each taken as a whole. */
  datatype Operation =
    | Break(pages: int, structures: nat)
    | Switch(next: nat)
    | MakeThread(thread: nat) | Spawn(pid: nat, thread: nat) | Reap(pid: nat) | Destroy(thread: nat)
    | CreateWindow(w: nat, bytes: nat, double: bool, fit: seq<(bool, nat)>) | SwapWindow(k: Key) | CloseWindow(w: nat)

  ghost predicate RangePoolIf(open: bool, vpool: Pool)
    reads vpool, vpool.repr
  {
    open ==> vpool.repr == vpool.Repr() && vpool.Valid() && vpool.WasteStart() == FB_LIMIT && vpool.total == FB_TOTAL
  }

  /** The pool of framebuffer addresses: 400 pages, the first of them its metadata. */
  ghost predicate RangePool(vpool: Pool)
    reads vpool, vpool.repr
  {
    forall open {:trigger RangePoolIf(open, vpool)} :: RangePoolIf(open, vpool)
  }

  ghost predicate Separated(pool: Pool, vpool: Pool, mmu: Mmu) {
    && pool in pool.repr && vpool in vpool.repr
    && pool.repr !! vpool.repr && mmu !in pool.repr && mmu !in vpool.repr
  }

  class Memory {
    const pool: Pool // page_allocator
    const vpool: Pool // framebuffer_allocator
    const mmu: Mmu
    const meta: nat // framebuffer_page
    const high: nat // SOC_EXTRAM_HIGH
    var threads: map<nat, Thread>
    var tasks: map<nat, nat>
    var current: nat // current_mapped_task
    var running: nat // the pid of the task that runs, 0 for a task of the kernel
    var buffers: map<Key, Buffer>

    ghost function View(): Space
      reads this, mmu, pool
    {
      Space(mmu.table, threads, tasks, current, buffers, Used(pool), meta, high)
    }

    /** The objects have no parts in common; this never changes. */
    ghost predicate Apart() {
      Separated(pool, vpool, mmu) && this !in pool.repr && this !in vpool.repr
    }

    /** The part of the invariant that the framebuffer addresses have no part in. */
    ghost predicate Core()
      reads this, mmu, pool, pool.repr, vpool, vpool.repr
    {
      && PagePool(pool) && RangePool(vpool)
      && View().Holds()
      && running == current
    }

    ghost predicate Valid()
      reads this, mmu, pool, pool.repr, vpool, vpool.repr
    {
      Core() && Placed(buffers, vpool.LiveMap(), NONE)
    }

    /** The thread structure of the task that runs. */
    function Own(): nat
      reads this
    {
      if running in tasks then tasks[running] else KERNEL
    }

    lemma OwnIsActive()
      requires Core()
      ensures Active(View(), Own()) && View().ThreadFits(Own())
    {
      SpaceActive(View(), running);
    }

    /** memory_init: page 0 for the page allocator and one page for the framebuffer allocator are mapped. */
    constructor (psram: nat, high: nat)
      requires USER_START <= high && 2 <= psram && Pow2(OrderFor(psram)) < 2 * (psram - 1)
      ensures Apart() && Valid()
      ensures threads == map[KERNEL := Thread([], KERNEL_START, KERNEL_START, 0)] && tasks == map[] && buffers == map[]
      ensures mmu.table == map[0 := 0, FB_START := meta] && Used(pool) == {meta}
    {
      var p, frame, v, m := Boot(psram);
      pool, vpool, mmu, meta, this.high := p, v, m, frame, high;
      threads := map[KERNEL := Thread([], KERNEL_START, KERNEL_START, 0)];
      tasks, current, running, buffers := map[], 0, 0, map[];
      new;
      InitialHolds(View());
    }

    /** Pages from the page allocator that are in a list of ranges but nowhere else yet. */
    ghost predicate Taken(s: Space, ranges: seq<Range>, vaddr: nat)
      reads this, mmu, pool, pool.repr, vpool, vpool.repr
    {
      forall open {:trigger TakenIf(open, s, ranges, vaddr)} :: TakenIf(open, s, ranges, vaddr)
    }

    ghost predicate TakenIf(open: bool, s: Space, ranges: seq<Range>, vaddr: nat)
      reads this, mmu, pool, pool.repr, vpool, vpool.repr
    {
      open ==>
      && PagePool(pool) && RangePool(vpool)
      && s.Holds() && s == View().(used := s.used)
      && running == current
      && Built(s.used, ranges, vaddr, Used(pool))
    }

    /** pages_allocate on the page allocator. */
    method NewPages(vaddr: nat, n: nat, structures: nat) returns (ok: bool, ranges: seq<Range>)
      requires Apart() && Core()
      modifies pool.repr
      ensures ok <==> n <= old(Available(pool)) && n <= structures
      ensures Available(pool) == old(Available(pool)) - if ok then n else 0
      ensures if ok then |ranges| == n && Taken(old(View()), ranges, vaddr) else Core() && View() == old(View())
    {
      ok, ranges := PagesAllocate(pool, vaddr, n, structures);
    }

    // ---- sbrk ----

    /** There are `n` pages for the heap, structures to list them with, and addresses below the end of memory. */
    ghost predicate Enough(n: nat, structures: nat)
      reads this, pool
    {
      Own() in threads && threads[Own()].end + n <= high && n <= Available(pool) && n <= structures
    }

    /**
     * why_sbrk for a growing heap. It fails when the break would pass the end of external
     * memory or there are too few pages. A heap of a process is never in the way of
     * anything; the kernel's aborts the system exactly when it would reach the
     * framebuffers, whose metadata page is always mapped.
     */
    method Grow(n: nat, structures: nat) returns (grown: bool, aborted: bool, ghost top: seq<Range>)
      requires Apart() && Core() && n > 0
      modifies this`threads, mmu, pool.repr
      ensures aborted <==> old(Enough(n, structures)) && !old(Room(View(), Own(), n))
      ensures !aborted ==> Core() && (grown <==> old(Enough(n, structures)))
      ensures !aborted && grown ==> |top| == n && Gained(old(View()), View(), Own(), top)
      ensures !aborted && grown ==> HeapMoved(old(View()), View(), Own(), n)
      ensures !aborted && !grown ==> View() == old(View())
    {
      ghost var s := View();
      OwnIsActive();
      var th := threads[Own()];
      grown, aborted, top := false, false, [];
      if th.end + n > high {
        return;
      }
      var ok, ranges := NewPages(th.end, n, structures);
      if !ok {
        return;
      }
      aborted := MapTop(ranges, s);
      grown, top := !aborted, ranges;
    }

    /** Maps new pages on top of the heap of the task that runs, and lists them. */
    method MapTop(ranges: seq<Range>, ghost s: Space) returns (aborted: bool)
      requires Apart() && Own() in threads && Taken(s, ranges, threads[Own()].end) && ranges != []
      requires Own() == KERNEL || Room(s, Own(), |ranges|)
      modifies this`threads, mmu
      ensures aborted <==> !Room(s, Own(), |ranges|)
      ensures !aborted ==> Core() && Gained(s, View(), Own(), ranges)
      ensures !aborted ==> HeapMoved(s, View(), Own(), |ranges|)
    {
      var t := Own();
      assert TakenIf(true, s, ranges, threads[t].end);
      assert BuiltIf(true, s.used, ranges, threads[t].end, Used(pool));
      SpaceActive(s, running);
      ClearAbove(s, t, |ranges|);
      var ok := mmu.MapRegions(ranges, threads[t].end);
      if ok {
        GrownHolds(s, t, ranges, mmu.table, Used(pool));
        GrownMoves(s, t, ranges, mmu.table, Used(pool));
        threads := threads[t := Extended(threads[t], ranges)];
      }
      aborted := !ok;
    }

    /**
     * In the loop of why_sbrk, when `done` pages of heap `t` are gone: the state is that
     * of a heap shrunk so far, except for the size and the break that are set at the end.
     */
    ghost predicate Midway(s: Space, t: nat, done: nat)
      reads this, mmu, pool, pool.repr
    {
      forall open {:trigger MidwayIf(open, s, t, done)} :: MidwayIf(open, s, t, done)
    }

    ghost predicate MidwayIf(open: bool, s: Space, t: nat, done: nat)
      reads this, mmu, pool, pool.repr
    {
      open ==>
      && PagePool(pool)
      && t in s.threads && s.threads[t].Covered() && done <= |s.threads[t].pages|
      && ShrunkBy(s, t, done, mmu.table, Used(pool)).Holds()
      && View() == ShrunkBy(s, t, done, mmu.table, Used(pool))
                     .(threads := s.threads[t := s.threads[t].(pages := s.threads[t].pages[done..])])
      && Used(pool) == s.used - FramesOf(s.threads[t].pages[..done])
    }

    /** The body of the loop of why_sbrk: gives back and unmaps the highest page of the heap. */
    method DropTop(t: nat, ghost s: Space, ghost done: nat) returns (ok: bool)
      requires this !in pool.repr && mmu !in pool.repr
      requires Midway(s, t, done) && Active(s, t) && done < |s.threads[t].pages|
      requires t in threads && threads[t].pages == s.threads[t].pages[done..]
      modifies this`threads, mmu, pool.repr
      ensures ok && Midway(s, t, done + 1)
      ensures t in threads && threads[t].pages == s.threads[t].pages[done + 1..]
    {
      assert MidwayIf(true, s, t, done);
      ghost var cur := ShrunkBy(s, t, done, mmu.table, Used(pool));
      TopPage(cur, t);
      DroppedOneMore(s.threads[t], done);
      var r := threads[t].pages[0];
      PageDeallocate(pool, r.frame);
      ok := mmu.UnmapRegion(r.vaddr, r.size);
      threads := threads[t := threads[t].(pages := threads[t].pages[1..])];
      ShrunkByOneMore(s, t, done, cur, mmu.table, Used(pool));
    }

    /**
     * why_sbrk for a shrinking heap: gives back the highest pages, as many as asked for
     * or as there are.
     */
    method Shrink(n: nat) returns (aborted: bool)
      requires Apart() && Core() && n > 0
      modifies this`threads, mmu, pool.repr
      ensures !aborted && Core() && Own() in old(threads) && old(threads)[Own()].Covered()
      ensures var th := old(threads)[Own()]; var k := if n > th.size then th.size else n;
              && View() == ShrunkBy(old(View()), Own(), k, mmu.table, Used(pool))
              && Used(pool) == old(Used(pool)) - FramesOf(th.pages[..k])
      ensures HeapMoved(old(View()), View(), Own(), 0 - n as int)
    {
      OwnIsActive();
      var t := Own();
      ghost var s, th := View(), threads[t];
      var requested: nat := if n > threads[t].size then threads[t].size else n;
      var toDecrement: nat := requested;
      NoneDropped(s, t);
      while threads[t].pages != [] && toDecrement > 0
        invariant toDecrement <= requested <= |th.pages| && Midway(s, t, requested - toDecrement)
        invariant t in threads && threads[t].pages == th.pages[requested - toDecrement..]
        decreases toDecrement
      {
        var r := threads[t].pages[0];
        ghost var done := requested - toDecrement;
        assert r == th.pages[done] && r.size == 1;
        if r.size <= toDecrement {
          var ok := DropTop(t, s, done);
          toDecrement := toDecrement - r.size;
        } else {
          assert false; // every range is one page
        }
      }
      assert toDecrement == 0;
      Lower(t, requested - toDecrement, s);
      ShrunkMoves(s, t, n, mmu.table, Used(pool));
      aborted := false;
    }

    /** The end of why_sbrk: accounts for what was released. */
    method Lower(t: nat, released: nat, ghost s: Space)
      requires Midway(s, t, released) && this !in pool.repr
      modifies this`threads
      ensures t in s.threads && s.threads[t].Covered() && released <= |s.threads[t].pages|
      ensures View() == ShrunkBy(s, t, released, mmu.table, Used(pool)) && View().Holds()
      ensures PagePool(pool) && Used(pool) == s.used - FramesOf(s.threads[t].pages[..released])
    {
      assert MidwayIf(true, s, t, released);
      threads := threads[t := threads[t].(size := threads[t].size - released, end := threads[t].end - released)];
    }

    /**
     * why_sbrk by `increment` pages: the old break, or none. It aborts only when the
     * kernel's heap would grow into the framebuffers.
     */
    method Sbrk(increment: int, structures: nat) returns (result: Option<nat>, aborted: bool)
      requires Apart() && Valid()
      modifies this`threads, mmu, pool.repr
      ensures aborted <==> increment > 0 && old(Enough(increment, structures)) && !old(Room(View(), Own(), increment))
      ensures aborted ==> Own() == KERNEL
      ensures !aborted ==> Valid() && Own() in old(threads)
      ensures !aborted ==>
                result == if increment > 0 && !old(Enough(increment, structures)) then None
                          else Some(old(threads)[Own()].end)
      ensures !aborted ==> HeapMoved(old(View()), View(), Own(), if result.None? then 0 else increment)
    {
      OwnIsActive();
      var was := threads[Own()].end;
      result, aborted := Some(was), false;
      NotMoved(View(), Own());
      if increment > 0 {
        var grown;
        ghost var top;
        grown, aborted, top := Grow(increment, structures);
        if !grown {
          result := None;
        }
      } else if increment < 0 {
        aborted := Shrink(-increment);
      }
    }

    // ---- The context switch ----

    /** unmap_task, for the task that is switched out; any other than the mapped one aborts. */
    method UnmapTask(pid: nat) returns (aborted: bool)
      requires View().Holds() && pid != 0
      modifies this`current, mmu
      ensures aborted <==> old(current) != pid
      ensures View().Holds()
      ensures View() == if aborted then old(View()) else old(View()).(current := 0, table := mmu.table)
    {
      ghost var s := View();
      aborted := current != pid;
      if aborted {
        return;
      }
      FullForSwitch(s);
      var th := threads[tasks[pid]];
      if th.pages != [] {
        var ok := mmu.UnmapRegions(th.pages, th.start);
        aborted := !ok;
      }
      SwitchedOutHolds(s, mmu.table);
      current := 0;
    }

    /**
     * remap_task, called for the task that is switched in. A thread that was spawned
     * from a task of the kernel has the kernel's thread structure: for it the call aborts
     * exactly when the kernel has a heap, since that is always mapped. It aborts as well
     * while another task is mapped.
     */
    method RemapTask(pid: nat, thread: nat) returns (aborted: bool)
      requires View().Holds() && pid != 0
      requires thread == KERNEL || (pid in tasks && tasks[pid] == thread && thread in threads)
      modifies this`current, mmu
      ensures KERNEL in threads && (aborted <==> old(current) != 0 || (thread == KERNEL && threads[KERNEL].pages != []))
      ensures old(current) != 0 ==> View() == old(View())
      ensures !aborted && thread != KERNEL ==>
                View() == old(View()).(current := pid, table := mmu.table) && View().Holds()
    {
      ghost var s := View();
      KernelHeapIsMapped(s);
      aborted := current != 0;
      if aborted {
        return;
      }
      if thread != KERNEL { NotKernels(s, pid); ClearForSwitch(s, thread); }
      var ok := mmu.MapRegions(threads[thread].pages, threads[thread].start);
      aborted := !ok;
      if thread != KERNEL { SwitchedInHolds(s, pid, mmu.table); }
      current := pid;
    }

    /**
     * The scheduler's hooks: the task that runs is switched out, and `next` is switched
     * in; 0 stands for a task of the kernel, which has nothing to map.
     */
    method SwitchTo(next: nat) returns (aborted: bool)
      requires Apart() && Valid() && (next == 0 || next in tasks)
      modifies this`current, this`running, mmu
      ensures !aborted && Valid()
      ensures View() == old(View()).(current := next, table := mmu.table)
    {
      ghost var s := View();
      aborted := false;
      if running != 0 {
        aborted := UnmapTask(running);
      }
      if next != 0 {
        NotKernels(View(), next);
        aborted := RemapTask(next, tasks[next]);
      }
      running := next;
    }

    // ---- Tasks and thread structures ----

    /** task_thread_init */
    method NewThread(t: nat)
      requires Apart() && Valid() && t !in threads
      modifies this`threads
      ensures Valid() && View() == WithThread(old(View()), t)
    {
      NewThreadHolds(View(), t);
      threads := threads[t := Thread([], USER_START, USER_START, 0)];
    }

    /** A task that starts on a process's thread structure. */
    method AddTask(pid: nat, t: nat)
      requires Apart() && Valid() && pid !in tasks && pid != 0 && t in threads && t != KERNEL
      modifies this`tasks
      ensures Valid() && View() == old(View()).(tasks := old(tasks)[pid := t])
    {
      TaskAddedHolds(View(), pid, t);
      tasks := tasks[pid := t];
    }

    /** A task that is reaped, which does not run any more. */
    method RemoveTask(pid: nat)
      requires Apart() && Valid() && pid != current
      modifies this`tasks
      ensures Valid() && View() == old(View()).(tasks := old(tasks) - {pid})
    {
      TaskRemovedHolds(View(), pid);
      tasks := tasks - {pid};
    }

    /**
     * pages_deallocate at the end of task_thread_destroy, for a structure that no task
     * uses: its pages go back to the page allocator, and none of them is mapped.
     */
    method ThreadDestroy(t: nat)
      requires Apart() && Valid() && t in threads && t != KERNEL && forall p | p in tasks :: tasks[p] != t
      modifies this`threads, pool.repr
      ensures Valid()
      ensures View() == old(View()).(threads := old(threads) - {t},
                                     used := old(Used(pool)) - FramesOf(old(threads)[t].pages))
    {
      ThreadGoneHolds(View(), t);
      PagesDeallocate(pool, threads[t].pages);
      threads := threads - {t};
    }

    // ---- Framebuffers ----

    /**
     * framebuffer_vaddr_allocate for `bytes` of pixels and a guard page: the first page of
     * a range that no framebuffer is mapped in, or 0.
     */
    method VaddrAllocate(bytes: nat) returns (start: nat, pages: nat)
      requires Apart() && Valid() && bytes <= MAX_BYTES
      modifies vpool.repr
      ensures Core() && View() == old(View())
      ensures start != 0 <==> old(vpool.CanServe(PagesFor(bytes) + 1))
      ensures start == 0 ==> vpool.LiveMap() == old(vpool.LiveMap())
      ensures start != 0 ==>
                && pages == PagesFor(bytes) + 1 && start > FB_START && start - FB_START - 1 + pages <= FB_LIMIT
                && start - FB_START - 1 !in old(vpool.LiveMap())
                && vpool.LiveMap() == old(vpool.LiveMap())[start - FB_START - 1 := OrderFor(pages)]
                && SpanFree(View(), start, pages)
                && BestFits(old(vpool.LiveMap()), old(vpool.freePages), start, pages)
    {
      ghost var s, before := View(), vpool.LiveMap();
      GuardPage(bytes);
      var block := RangeAllocate(vpool, bytes);
      assert View() == s;
      if block.None? {
        return 0, 0;
      }
      start, pages := FB_START + 1 + block.value, PagesFor(bytes + PAGE_SIZE);
      NewBlockIsFree(s, before, block.value, pages);
    }

    /** The range was cut from the smallest region that would do, and its pages are accounted for. */
    ghost predicate BestFits(before: Tile, free: int, start: nat, pages: nat)
      reads vpool
    {
      && start > FB_START && start - FB_START - 1 !in before && vpool.BestFit(before, start - FB_START - 1, pages)
      && vpool.LiveMap() == before[start - FB_START - 1 := OrderFor(pages)]
      && vpool.freePages == free - Pow2(OrderFor(pages))
    }

    /** framebuffer_vaddr_deallocate */
    method VaddrDeallocate(start: nat)
      requires Apart() && Core() && start > FB_START && start - FB_START - 1 in vpool.LiveMap()
      modifies vpool.repr
      ensures Core() && View() == old(View())
      ensures vpool.LiveMap() == old(vpool.LiveMap()) - {start - FB_START - 1}
    {
      assert RangePoolIf(true, vpool);
      vpool.LiveBelow();
      vpool.Deallocate((start - FB_START - 1) * PAGE_SIZE);
    }

    /** Maps the pages of a new framebuffer in a range that is free. */
    method MapBuffer(k: Key, b: Buffer, ghost s: Space) returns (aborted: bool)
      requires Apart() && Taken(s, b.pages, b.Loc()) && SpanFree(s, b.Loc(), b.numPages)
      requires k !in buffers && b.Covered() && AtHome(b)
      modifies this`buffers, mmu
      ensures !aborted && Core() && MadeAt(old(buffers), k, b.pixels, b.numPages, buffers)
    {
      assert TakenIf(true, s, b.pages, b.Loc());
      ClearInSpan(s, b.Loc(), b.numPages);
      var ok := mmu.MapRegions(b.pages, b.Loc());
      NewBufferHolds(s, k, b, mmu.table, Used(pool));
      buffers := buffers[k := b];
      aborted := !ok;
    }

    /** The middle of framebuffer_allocate: pages for a range of addresses that is free. */
    method BackBuffer(k: Key, start: nat, pages: nat, structures: nat) returns (backed: bool, aborted: bool)
      requires Apart() && Core() && k !in buffers && pages >= 2 && SpanFree(View(), start, pages)
      requires FB_START < start && start + pages <= USER_START
      modifies this`buffers, mmu, pool.repr
      ensures !aborted && Core()
      ensures backed <==> pages - 1 <= old(Available(pool)) && pages - 1 <= structures
      ensures Available(pool) == old(Available(pool)) - if backed then pages - 1 else 0
      ensures if backed then MadeAt(old(buffers), k, start, pages, buffers) else View() == old(View())
    {
      ghost var s := View();
      aborted := false;
      var ranges;
      backed, ranges := NewPages(start, pages - 1, structures);
      if backed {
        assert TakenIf(true, s, ranges, start);
        NewBufferAt(s.used, start, ranges, pages, Used(pool));
        aborted := MapBuffer(k, Buffer(start, ranges, pages), s);
      }
    }

    /**
     * framebuffer_allocate, for `bytes` of pixels: their pages and a guard page of
     * addresses. It succeeds exactly when there is a range of addresses, a container,
     * enough pages and structures to list them with; if not, everything it took goes back.
     * Without any pixels it has no pages to map, and faults instead: it reads the address
     * of the last of them all the same.
     */
    method FramebufferAllocate(k: Key, bytes: nat, container: bool, structures: nat)
        returns (made: bool, aborted: bool, faulted: bool, ghost at: nat)
      requires Apart() && Valid() && k !in buffers && k.slot < 2 && bytes <= MAX_BYTES
      requires Partner(k) in buffers ==> buffers[Partner(k)].numPages == PagesFor(bytes) + 1
      modifies this`buffers, mmu, pool.repr, vpool.repr
      ensures faulted <==> bytes == 0 && old(vpool.CanServe(1)) && container
      ensures !aborted && (!faulted ==> Valid())
      ensures made <==>
                && old(vpool.CanServe(PagesFor(bytes) + 1)) && container && bytes > 0
                && PagesFor(bytes) <= old(Available(pool)) && PagesFor(bytes) <= structures
      ensures made ==> MadeAt(old(buffers), k, at, PagesFor(bytes) + 1, buffers)
      ensures made ==> BestFits(old(vpool.LiveMap()), old(vpool.freePages), at, PagesFor(bytes) + 1)
      ensures made ==> Available(pool) == old(Available(pool)) - PagesFor(bytes)
      ensures !made && !faulted ==> View() == old(View()) && vpool.LiveMap() == old(vpool.LiveMap())
    {
      ghost var reserved := vpool.LiveMap();
      made, aborted, faulted := false, false, false;
      var start, pages := VaddrAllocate(bytes);
      at := start;
      if start != 0 {
        GuardPage(bytes);
        if pages == 1 && container {
          faulted := true;
          return;
        }
        made, aborted := FillRange(k, start, pages, container, structures, reserved);
      }
    }

    /** The rest of framebuffer_allocate: a framebuffer in the range just reserved, or nothing. */
    method FillRange(k: Key, start: nat, pages: nat, container: bool, structures: nat, ghost reserved: Tile)
        returns (made: bool, aborted: bool)
      requires Apart() && Core() && k !in buffers && k.slot < 2 && (container ==> 2 <= pages)
               && SpanFree(View(), start, pages)
      requires Partner(k) in buffers ==> buffers[Partner(k)].numPages == pages
      requires start > FB_START && start - FB_START - 1 + pages <= FB_LIMIT
      requires start - FB_START - 1 !in reserved && Placed(buffers, reserved, NONE)
      requires vpool.LiveMap() == reserved[start - FB_START - 1 := OrderFor(pages)]
      modifies this`buffers, mmu, pool.repr, vpool.repr
      ensures !aborted && Valid()
      ensures made <==> container && pages - 1 <= old(Available(pool)) && pages - 1 <= structures
      ensures Available(pool) == old(Available(pool)) - if made then pages - 1 else 0
      ensures made ==> unchanged(vpool)
      ensures if made then MadeAt(old(buffers), k, start, pages, buffers)
              else View() == old(View()) && vpool.LiveMap() == reserved
    {
      made, aborted := false, false;
      if container {
        made, aborted := BackBuffer(k, start, pages, structures);
      }
      assert vpool.LiveMap() == reserved[start - FB_START - 1 := OrderFor(pages)];
      if made {
        MadePlaced(old(buffers), reserved, k, start, pages, buffers);
      } else {
        VaddrDeallocate(start);
        Withdrawn(reserved, start - FB_START - 1, OrderFor(pages));
      }
    }

    /**
     * framebuffer_free: unmaps the pages where they are, gives them back, and gives back
     * the range the framebuffer was made in. The other framebuffer of the window may be
     * left mapped in that range, so its window stays open until it is freed too.
     */
    method FramebufferFree(k: Key, ghost open: int) returns (aborted: bool)
      requires Apart() && Core() && k in buffers && Placed(buffers, vpool.LiveMap(), open)
               && (open == NONE || open == k.window)
      modifies this`buffers, mmu, pool.repr, vpool.repr
      ensures !aborted && Core() && Placed(buffers, vpool.LiveMap(), k.window)
      ensures buffers == old(buffers) - {k}
      ensures Used(pool) == old(Used(pool)) - FramesOf(old(buffers)[k].pages)
      ensures Block(old(buffers)[k]) in old(vpool.LiveMap())
      ensures vpool.LiveMap() == old(vpool.LiveMap()) - {Block(old(buffers)[k])}
    {
      var b := buffers[k];
      BufferGonePlaced(buffers, vpool.LiveMap(), open, k);
      aborted := DropBuffer(k);
      VaddrDeallocate(b.pixels);
    }

    /** The pages of a framebuffer: unmapped and given back. */
    method DropBuffer(k: Key) returns (aborted: bool)
      requires Apart() && Core() && k in buffers
      modifies this`buffers, mmu, pool.repr
      ensures !aborted && Core()
      ensures View() == WithoutBuffer(old(View()), k, mmu.table)
    {
      ghost var s := View();
      var b := buffers[k];
      BufferFull(s, k);
      var ok := mmu.UnmapRegions(b.pages, b.Loc());
      BufferGoneHolds(s, k, mmu.table);
      BufferPagesUsed(s, k);
      PagesDeallocate(pool, b.pages);
      buffers := buffers - {k};
      aborted := !ok;
    }

    /** The end of WINDOW_DESTROY in the compositor: frees both framebuffers of a window. */
    method WindowDestroy(w: nat) returns (aborted: bool)
      requires Apart() && Valid()
      modifies this`buffers, mmu, pool.repr, vpool.repr
      ensures !aborted && Valid()
      ensures buffers == old(buffers) - {Key(w, 0), Key(w, 1)}
      ensures View() == old(View()).(buffers := buffers, table := mmu.table, used := Used(pool))
    {
      OpenWindow(buffers, vpool.LiveMap(), w);
      ghost var was := buffers;
      aborted := false;
      if Key(w, 0) in buffers {
        aborted := FramebufferFree(Key(w, 0), w);
      }
      if Key(w, 1) in buffers {
        aborted := FramebufferFree(Key(w, 1), w);
      }
      BothGone(was, buffers, vpool.LiveMap(), w);
    }

    /**
     * framebuffer_swap on the two framebuffers of a window: each is taken off the table
     * and mapped where the other was.
     */
    method FramebufferSwap(k: Key) returns (aborted: bool)
      requires Apart() && Valid() && k in buffers && Partner(k) in buffers
      modifies this`buffers, mmu
      ensures !aborted && Valid()
      ensures Exchanged(old(mmu.table), mmu.table, old(buffers)[k], old(buffers)[Partner(k)])
      ensures View() == Swapped(old(View()), k, Partner(k), mmu.table)
    {
      ghost var s := View();
      var l := Partner(k);
      PartnersPair(s, vpool.LiveMap(), NONE, k);
      var toA, toB;
      aborted, toB, toA := Exchange(k, l);
      SwappedHolds(s, k, l, mmu.table);
      SwapPlaced(s, vpool.LiveMap(), k, mmu.table);
      buffers := buffers[k := buffers[k].(pages := toB)][l := buffers[l].(pages := toA)];
    }

    /** The four steps of framebuffer_swap on the table, and the lists at their new addresses. */
    method Exchange(k: Key, l: Key) returns (aborted: bool, toB: seq<Range>, toA: seq<Range>)
      requires View().Holds() && Pair(View(), k, l)
      modifies mmu
      ensures !aborted && Exchanged(old(mmu.table), mmu.table, buffers[k], buffers[l])
      ensures toB == MovedTo(buffers[k], buffers[l].Loc()).pages && toA == MovedTo(buffers[l], buffers[k].Loc()).pages
    {
      var a, b := buffers[k], buffers[l];
      PairApart(View(), k, l);
      ghost var t0, t1, t3 := mmu.table, map[], map[];
      aborted, t1 := TakeOff(a, b);
      ghost var t2 := mmu.table;
      toB := ReassignVaddr(b.Loc(), a.numPages, a.pages);
      toA := ReassignVaddr(a.Loc(), b.numPages, b.pages);
      aborted, t3 := PutOn(toB, b.Loc(), toA, a.Loc());
      ExchangedInSteps(t0, t1, t2, t3, mmu.table, a, b);
    }

    /** Unmaps two framebuffers, one after the other. */
    method TakeOff(a: Buffer, b: Buffer) returns (aborted: bool, ghost between: Table)
      requires Chain(a.pages, a.Loc()) && Chain(b.pages, b.Loc())
      requires a.Loc() + |a.pages| <= b.Loc() || b.Loc() + |b.pages| <= a.Loc()
      requires Full(mmu.table, a.Loc(), |a.pages|) && Full(mmu.table, b.Loc(), |b.pages|)
      modifies mmu
      ensures !aborted && Clear(mmu.table, a.Loc(), |a.pages|) && Clear(mmu.table, b.Loc(), |b.pages|)
      ensures Unmaps(old(mmu.table), between, a.Loc(), |a.pages|) && Unmaps(between, mmu.table, b.Loc(), |b.pages|)
    {
      var ok := mmu.UnmapRegions(a.pages, a.Loc());
      between := mmu.table;
      UnmapLeaves(old(mmu.table), between, a.Loc(), |a.pages|, b.Loc(), |b.pages|);
      UnmappedIsClear(old(mmu.table), between, a.Loc(), |a.pages|);
      var ok' := mmu.UnmapRegions(b.pages, b.Loc());
      UnmapLeaves(between, mmu.table, b.Loc(), |b.pages|, a.Loc(), |a.pages|);
      UnmappedIsClear(between, mmu.table, b.Loc(), |b.pages|);
      aborted := !ok || !ok';
    }

    /** Maps two chains, one after the other. */
    method PutOn(first: seq<Range>, start: nat, second: seq<Range>, start': nat)
        returns (aborted: bool, ghost between: Table)
      requires Chain(first, start) && Chain(second, start')
      requires start + |first| <= start' || start' + |second| <= start
      requires Clear(mmu.table, start, |first|) && Clear(mmu.table, start', |second|)
      modifies mmu
      ensures !aborted
      ensures Maps(old(mmu.table), between, first, start) && Maps(between, mmu.table, second, start')
    {
      var ok := mmu.MapRegions(first, start);
      between := mmu.table;
      MapLeaves(old(mmu.table), between, first, start, start', |second|);
      var ok' := mmu.MapRegions(second, start');
      aborted := !ok || !ok';
    }

    /**
     * window_framebuffer_create: one framebuffer, or two of one size, for a window that
     * has none. If the second cannot be made, the first goes again and nothing has
     * changed. `fit` says what there is for each: a container, and range structures.
     * A window without pixels faults when the first framebuffer gets its range.
     */
    method WindowFramebufferCreate(w: nat, bytes: nat, double: bool, fit: seq<(bool, nat)>)
        returns (created: bool, aborted: bool, faulted: bool)
      requires Apart() && Valid() && bytes <= MAX_BYTES && |fit| == 2
      modifies this`buffers, mmu, pool.repr, vpool.repr
      ensures faulted <==>
                && Key(w, 0) !in old(buffers) && Key(w, 1) !in old(buffers)
                && bytes == 0 && old(vpool.CanServe(1)) && fit[0].0
      ensures !aborted && (!faulted ==> Valid())
      ensures created ==> WindowMade(old(buffers), w, PagesFor(bytes) + 1, double, buffers)
      ensures !created && !faulted ==> View() == old(View())
      ensures created <==>
                && Key(w, 0) !in old(buffers) && Key(w, 1) !in old(buffers) && bytes > 0
                && old(vpool.CanServe(PagesFor(bytes) + 1)) && fit[0].0
                && PagesFor(bytes) <= old(Available(pool)) && PagesFor(bytes) <= fit[0].1
                && (double ==>
                      && old(CanServeTwo(PagesFor(bytes) + 1)) && fit[1].0
                      && 2 * PagesFor(bytes) <= old(Available(pool)) && PagesFor(bytes) <= fit[1].1)
    {
      ghost var s, before, free := View(), vpool.LiveMap(), vpool.freePages;
      created, aborted, faulted := false, false, false;
      if Key(w, 0) in buffers || Key(w, 1) in buffers {
        return;
      }
      ghost var at;
      created, aborted, faulted, at := FramebufferAllocate(Key(w, 0), bytes, fit[0].0, fit[0].1);
      if created && double {
        created, aborted := SecondFramebuffer(w, bytes, fit[1].0, fit[1].1, s, at, before, free);
      }
    }

    /** The framebuffer allocator has two ranges of `n` pages. */
    ghost predicate CanServeTwo(n: nat)
      reads vpool
    {
      && vpool.CanServe(n) && n <= vpool.freePages - Pow2(OrderFor(n))
      && TwoPlaces(vpool, vpool.LiveMap(), n)
    }

    lemma SecondRange(before: Tile, free: int, start: nat, pages: nat)
      requires RangePool(vpool) && BestFits(before, free, start, pages) && OrderFor(pages) < vpool.maxOrder
      requires 0 < pages <= FB_TOTAL - FB_LIMIT
      ensures vpool.CanServe(pages) <==> pages <= free - Pow2(OrderFor(pages)) && TwoPlaces(vpool, before, pages)
    {
      assert RangePoolIf(true, vpool);
      SmallIsBacked(pages);
      SecondPlace(vpool, before, pages, start - FB_START - 1);
    }

    /** The second framebuffer of a window; without it the first goes too. */
    method SecondFramebuffer(w: nat, bytes: nat, container: bool, structures: nat,
                             ghost s: Space, ghost at: nat, ghost before: Tile, ghost free: int)
        returns (created: bool, aborted: bool)
      requires Apart() && Valid() && 0 < bytes <= MAX_BYTES && s.Holds()
      requires s == View().(buffers := s.buffers, table := s.table, used := s.used)
      requires Key(w, 0) !in s.buffers && Key(w, 1) !in s.buffers
      requires MadeAt(s.buffers, Key(w, 0), at, PagesFor(bytes) + 1, buffers)
      requires BestFits(before, free, at, PagesFor(bytes) + 1) && OrderFor(PagesFor(bytes) + 1) < vpool.maxOrder
      modifies this`buffers, mmu, pool.repr, vpool.repr
      ensures !aborted && Valid()
      ensures created <==>
                && PagesFor(bytes) + 1 <= free - Pow2(OrderFor(PagesFor(bytes) + 1))
                && TwoPlaces(vpool, before, PagesFor(bytes) + 1) && container
                && PagesFor(bytes) <= old(Available(pool)) && PagesFor(bytes) <= structures
      ensures if created then WindowMade(s.buffers, w, PagesFor(bytes) + 1, true, buffers) else View() == s
    {
      ghost var at', one := 0, buffers;
      var faulted;
      GuardPage(bytes);
      SecondRange(before, free, at, PagesFor(bytes) + 1);
      MadeKeys(s.buffers, Key(w, 0), at, PagesFor(bytes) + 1, buffers);
      created, aborted, faulted, at' := FramebufferAllocate(Key(w, 1), bytes, container, structures);
      if !created {
        aborted := FreeFirst(w, s, at, PagesFor(bytes) + 1);
      }
    }

    /** The first framebuffer of a window, just made, goes again. */
    method FreeFirst(w: nat, ghost s: Space, ghost at: nat, ghost pages: nat) returns (aborted: bool)
      requires Apart() && Valid() && s.Holds()
      requires s == View().(buffers := s.buffers, table := s.table, used := s.used)
      requires Key(w, 0) !in s.buffers && Key(w, 1) !in s.buffers
      requires MadeAt(s.buffers, Key(w, 0), at, pages, buffers)
      modifies this`buffers, mmu, pool.repr, vpool.repr
      ensures !aborted && Valid() && View() == s
    {
      MadeKeys(s.buffers, Key(w, 0), at, pages, buffers);
      aborted := FramebufferFree(Key(w, 0), NONE);
      NoneGone(s.buffers, buffers, vpool.LiveMap(), w);
      StateIsDetermined(s, View());
    }

    // ---- Every run ----

    ghost function Now(): Moment
      reads this, mmu, pool, vpool
    {
      Moment(View(), Available(pool),
             set n | 0 <= n <= MAX_RANGE && vpool.CanServe(n),
             set n | 0 <= n <= MAX_RANGE && CanServeTwo(n))
    }

    /** Takes a step that is allowed: it has the effect of its operation, and does not abort. */
    method Take(op: Operation) returns (aborted: bool)
      requires Apart() && Valid() && Allowed(op, threads, tasks, current, buffers)
      modifies this`threads, this`tasks, this`current, this`running, this`buffers, mmu, pool.repr, vpool.repr
      ensures !aborted && Valid()
      ensures Step(op, old(Now()), Now())
    {
      aborted := false;
      match op
      case Break(pages, structures) =>
        OwnIsActive();
        if running in tasks { NotKernels(View(), running); }
        var result;
        result, aborted := Sbrk(pages, structures);
      case Switch(next) => aborted := SwitchTo(next);
      case MakeThread(t) => NewThread(t);
      case Spawn(pid, t) => AddTask(pid, t);
      case Reap(pid) => RemoveTask(pid);
      case Destroy(t) => ThreadDestroy(t);
      case CreateWindow(_, _, _, _) => aborted := TakeWindow(op);
      case SwapWindow(_) => aborted := TakeWindow(op);
      case CloseWindow(_) => aborted := TakeWindow(op);
    }

    /** The steps that the windows take. */
    method TakeWindow(op: Operation) returns (aborted: bool)
      requires Apart() && Valid() && Allowed(op, threads, tasks, current, buffers)
      requires op.CreateWindow? || op.SwapWindow? || op.CloseWindow?
      modifies this`buffers, mmu, pool.repr, vpool.repr
      ensures !aborted && Valid()
      ensures Step(op, old(Now()), Now())
    {
      match op
      case CreateWindow(w, bytes, double, fit) =>
        var created, faulted;
        GuardPage(bytes);
        created, aborted, faulted := WindowFramebufferCreate(w, bytes, double, fit);
      case SwapWindow(k) => aborted := FramebufferSwap(k);
      case CloseWindow(w) => aborted := WindowDestroy(w);
    }

    /**
     * No run of the system aborts: whatever is asked for in whatever order, every step
     * that is allowed is taken and has its effect, and every other leaves all as it is.
     */
    method Run(script: seq<Operation>) returns (aborted: bool, ghost trace: seq<Moment>)
      requires Apart() && Valid()
      modifies this`threads, this`tasks, this`current, this`running, this`buffers, mmu, pool.repr, vpool.repr
      ensures !aborted && Valid()
      ensures IsRun(script, trace) && trace[0] == old(Now()) && trace[|script|] == Now()
    {
      aborted := false;
      trace := [Now()];
      for i := 0 to |script|
        invariant !aborted && Valid()
        invariant IsRun(script[..i], trace) && trace[0] == old(Now()) && trace[i] == Now()
      {
        if Allowed(script[i], threads, tasks, current, buffers) {
          aborted := Take(script[i]);
        }
        OneMoreStep(script[..i], trace, script[i], Now());
        assert script[..i] + [script[i]] == script[..i + 1];
        trace := trace + [Now()];
      }
      assert script[..|script|] == script;
    }
  }

  /**
   * The state at one moment, with the pages that can still be handed out, and the lengths
   * of which the framebuffer allocator has a range, and two ranges.
   */
  datatype Moment = Moment(space: Space, free: int, once: set<nat>, twice: set<nat>)

  /** What the system sees to before it takes a step; for the kernel's break, that it stays below the framebuffers. */
  predicate Allowed(op: Operation, threads: map<nat, Thread>, tasks: map<nat, nat>, current: nat,
                    buffers: map<Key, Buffer>)
  {
    match op
    case Break(pages, _) =>
      current in tasks || pages <= 0 || (KERNEL in threads && threads[KERNEL].end + pages <= FB_START)
    case Switch(next) => next == 0 || next in tasks
    case MakeThread(t) => t !in threads
    case Spawn(pid, t) => pid !in tasks && pid != 0 && t in threads && t != KERNEL
    case Reap(pid) => pid != current
    case Destroy(t) => t in threads && t != KERNEL && forall p | p in tasks :: tasks[p] != t
    case CreateWindow(_, bytes, _, fit) => 0 < bytes <= MAX_BYTES && |fit| == 2
    case SwapWindow(k) => k in buffers && Partner(k) in buffers
    case CloseWindow(_) => true
  }

  /** The heap of the task that runs. */
  ghost function HeapOf(s: Space): nat {
    if s.current in s.tasks then s.tasks[s.current] else KERNEL
  }

  /** One framebuffer for the window, or two, each in a range of its own. */
  ghost predicate WindowMade(bs: Buffers, w: nat, pages: nat, double: bool, bs': Buffers) {
    && Key(w, 0) !in bs && Key(w, 1) !in bs
    && if double then
         exists one, at, at' :: MadeAt(bs, Key(w, 0), at, pages, one) && MadeAt(one, Key(w, 1), at', pages, bs')
       else
         exists at :: MadeAt(bs, Key(w, 0), at, pages, bs')
  }

  /** There is all that the framebuffers of a new window take, of `n` pages each. */
  ghost predicate Fits(m: Moment, w: nat, n: nat, double: bool, fit: seq<(bool, nat)>) {
    && |fit| == 2 && Key(w, 0) !in m.space.buffers && Key(w, 1) !in m.space.buffers
    && n + 1 in m.once && fit[0].0 && n <= m.free && n <= fit[0].1
    && (double ==> n + 1 in m.twice && fit[1].0 && 2 * n <= m.free && n <= fit[1].1)
  }

  /** What one operation does. The table and the pages in use follow from the rest, since the invariant holds. */
  ghost predicate Step(op: Operation, m: Moment, m': Moment) {
    var s, s' := m.space, m'.space;
    match op
    case Break(pages, structures) =>
      var t := HeapOf(s);
      && t in s.threads
      && HeapMoved(s, s', t,
           if pages > 0 && !(s.threads[t].end + pages <= s.high && pages <= m.free && pages <= structures)
           then 0 else pages)
    case Switch(next) => s' == s.(current := next, table := s'.table)
    case MakeThread(t) => s' == WithThread(s, t)
    case Spawn(pid, t) => s' == s.(tasks := s.tasks[pid := t])
    case Reap(pid) => s' == s.(tasks := s.tasks - {pid})
    case Destroy(t) =>
      t in s.threads && s' == s.(threads := s.threads - {t}, used := s.used - FramesOf(s.threads[t].pages))
    case CreateWindow(w, bytes, double, fit) =>
      if Fits(m, w, PagesFor(bytes), double, fit) then
        && s' == s.(buffers := s'.buffers, table := s'.table, used := s'.used)
        && WindowMade(s.buffers, w, PagesFor(bytes) + 1, double, s'.buffers)
      else s' == s
    case SwapWindow(k) =>
      k in s.buffers && Partner(k) in s.buffers && s' == Swapped(s, k, Partner(k), s'.table)
    case CloseWindow(w) =>
      s' == s.(buffers := s.buffers - {Key(w, 0), Key(w, 1)}, table := s'.table, used := s'.used)
  }

  /** One operation of a script: a step when it is allowed, and nothing when it is not. */
  ghost predicate Next(op: Operation, m: Moment, m': Moment) {
    var s := m.space;
    m'.space.Holds() && if Allowed(op, s.threads, s.tasks, s.current, s.buffers) then Step(op, m, m') else m' == m
  }

  /** The moments between the operations of a script. */
  ghost predicate IsRun(script: seq<Operation>, trace: seq<Moment>) {
    && |trace| == |script| + 1 && trace[0].space.Holds()
    && forall i | 0 <= i < |script| :: Next(script[i], trace[i], trace[i + 1])
  }

  lemma OneMoreStep(script: seq<Operation>, trace: seq<Moment>, op: Operation, m: Moment)
    requires IsRun(script, trace) && Next(op, trace[|script|], m)
    ensures IsRun(script + [op], trace + [m])
  {
  }

  /** buddy_allocate on the framebuffer allocator, for `bytes` of pixels and a guard page. */
  method RangeAllocate(vpool: Pool, bytes: nat) returns (block: Option<nat>)
    requires RangePool(vpool) && bytes <= MAX_BYTES
    modifies vpool.repr
    ensures RangePool(vpool)
    ensures block.Some? <==> old(vpool.CanServe(PagesFor(bytes) + 1))
    ensures block.None? ==> vpool.LiveMap() == old(vpool.LiveMap())
    ensures block.Some? ==>
              var n := PagesFor(bytes) + 1;
              && block.value !in old(vpool.LiveMap()) && block.value + n <= FB_LIMIT
              && vpool.LiveMap() == old(vpool.LiveMap())[block.value := OrderFor(n)]
              && vpool.BestFit(old(vpool.LiveMap()), block.value, n)
              && vpool.freePages == old(vpool.freePages) - Pow2(OrderFor(n))
              && forall i | i in old(vpool.LiveMap()) ::
                   i + Pow2(old(vpool.LiveMap())[i]) <= block.value || block.value + Pow2(OrderFor(n)) <= i
  {
    assert RangePoolIf(true, vpool);
    GuardPage(bytes);
    SmallIsBacked(PagesFor(bytes + PAGE_SIZE));
    block := vpool.Allocate(bytes + PAGE_SIZE);
  }

  lemma PairApart(s: Space, k: Key, l: Key)
    requires s.Holds() && Pair(s, k, l)
    ensures var a, b := s.buffers[k], s.buffers[l];
            && a.Covered() && b.Covered() && |a.pages| == |b.pages|
            && Full(s.table, a.Loc(), |a.pages|) && Full(s.table, b.Loc(), |b.pages|)
            && (a.Loc() + a.numPages <= b.Loc() || b.Loc() + b.numPages <= a.Loc())
  {
    assert s.Has(Windows);
    assert s.BuffersApart(k, l);
    BufferFull(s, k);
    BufferFull(s, l);
  }

  /** reassign_vaddr: the ranges at consecutive pages that end below the guard page. */
  method ReassignVaddr(start: nat, numPages: nat, head: seq<Range>) returns (ranges: seq<Range>)
    requires |head| == numPages - 1 && forall i | 0 <= i < |head| :: head[i].size == 1
    ensures ranges == Rebased(head, start + |head|)
  {
    var next := start + (numPages - 1);
    ranges := [];
    for i := 0 to |head|
      invariant |ranges| == i && next == start + |head| - i
      invariant forall j | 0 <= j < i :: ranges[j] == Rebased(head, start + |head|)[j]
    {
      var r := head[i];
      next := next - r.size;
      ranges := ranges + [r.(vaddr := next)];
    }
  }

  lemma SwapPlaced(s: Space, reserved: Tile, k: Key, table: Table)
    requires s.Holds() && Placed(s.buffers, reserved, NONE) && Pair(s, k, Partner(k)) && Partner(Partner(k)) == k
    ensures Placed(Swapped(s, k, Partner(k), table).buffers, reserved, NONE)
  {
    assert s.Has(Windows);
    SwappedPlaces(s, k, Partner(k), table);
    SwappedPlaced(s, Swapped(s, k, Partner(k), table), reserved, k);
  }

  /** The pages of a framebuffer, as pages_deallocate needs them. */
  lemma BufferPagesUsed(s: Space, k: Key)
    requires s.Holds() && k in s.buffers
    ensures Distinct(s.buffers[k].pages) && FramesOf(s.buffers[k].pages) <= s.used
  {
    assert s.Has(Owners);
    BufferFrames(s, k);
  }

  lemma OpenWindow(bs: Buffers, reserved: Tile, w: nat)
    requires Placed(bs, reserved, NONE)
    ensures Placed(bs, reserved, w)
  {
    assert PlacedIf(true, bs, reserved, NONE);
  }

  lemma BothGone(bs: Buffers, bs': Buffers, reserved: Tile, w: nat)
    requires Placed(bs', reserved, w) && bs' == bs - {Key(w, 0)} - {Key(w, 1)}
    ensures bs' == bs - {Key(w, 0), Key(w, 1)} && Placed(bs', reserved, NONE)
  {
    assert PlacedIf(true, bs', reserved, w);
    forall k | k in bs' ensures k.window != w {
      assert OwnsBlock(bs', reserved, k);
    }
    WindowGonePlaced(bs', reserved, w);
  }

  lemma NoneGone(bs: Buffers, bs': Buffers, reserved: Tile, w: nat)
    requires Placed(bs', reserved, w) && bs' == bs && Key(w, 0) !in bs && Key(w, 1) !in bs
    ensures Placed(bs', reserved, NONE)
  {
    BothGone(bs, bs', reserved, w);
  }

  lemma NewBufferAt(used: set<nat>, start: nat, ranges: seq<Range>, pages: nat, used': set<nat>)
    requires Built(used, ranges, start, used') && |ranges| == pages - 1 >= 1 && FB_START < start
             && start + pages <= USER_START
    ensures var b := Buffer(start, ranges, pages); b.Loc() == start && b.Covered() && AtHome(b)
  {
    assert BuiltIf(true, used, ranges, start, used');
  }

  lemma GuardPage(bytes: nat)
    requires bytes <= MAX_BYTES
    ensures PagesFor(bytes + PAGE_SIZE) == PagesFor(bytes) + 1 <= MAX_RANGE
    ensures bytes > 0 <==> PagesFor(bytes) + 1 >= 2
  {
  }

  lemma SmallIsBacked(n: nat)
    requires n <= FB_TOTAL - FB_LIMIT
    ensures AlwaysBacked(FB_TOTAL, FB_LIMIT, n)
  {
  }

  lemma Withdrawn(reserved: Tile, block: nat, order: nat)
    requires block !in reserved
    ensures reserved[block := order] - {block} == reserved
  {
  }

  /** A new framebuffer is at home in its range. */
  ghost predicate MadeAt(bs: Buffers, k: Key, start: nat, pages: nat, bs': Buffers) {
    forall open {:trigger MadeAtIf(open, bs, k, start, pages, bs')} :: MadeAtIf(open, bs, k, start, pages, bs')
  }

  ghost predicate MadeAtIf(open: bool, bs: Buffers, k: Key, start: nat, pages: nat, bs': Buffers) {
    open ==>
    && k in bs' && bs' == bs[k := bs'[k]]
    && bs'[k].pixels == start && bs'[k].numPages == pages && AtHome(bs'[k])
  }

  lemma MadeKeys(bs: Buffers, k: Key, start: nat, pages: nat, bs': Buffers)
    requires MadeAt(bs, k, start, pages, bs')
    ensures k in bs' && bs'.Keys == bs.Keys + {k} && bs'[k].numPages == pages
    ensures k !in bs ==> bs' - {k} == bs
  {
    assert MadeAtIf(true, bs, k, start, pages, bs');
  }

  lemma MadePlaced(bs: Buffers, reserved: Tile, k: Key, start: nat, pages: nat, bs': Buffers)
    requires Placed(bs, reserved, NONE) && k !in bs && k.slot < 2 && MadeAt(bs, k, start, pages, bs')
    requires Partner(k) in bs ==> bs[Partner(k)].numPages == pages
    requires start > FB_START && start - FB_START - 1 + pages <= FB_LIMIT && start - FB_START - 1 !in reserved
    ensures Placed(bs', reserved[start - FB_START - 1 := OrderFor(pages)], NONE)
  {
    assert MadeAtIf(true, bs, k, start, pages, bs');
    NewBufferPlaced(bs, reserved, k, bs'[k], OrderFor(pages));
  }

  lemma SpaceActive(s: Space, running: nat)
    requires s.Holds() && running == s.current
    ensures var t := if running in s.tasks then s.tasks[running] else KERNEL; Active(s, t) && s.ThreadFits(t)
  {
    assert s.Has(Shapes);
    assert s.ThreadFits(if running in s.tasks then s.tasks[running] else KERNEL);
  }

  lemma NotKernels(s: Space, pid: nat)
    requires s.Holds() && pid in s.tasks
    ensures pid != 0 && s.tasks[pid] != KERNEL && s.tasks[pid] in s.threads
  {
    assert s.Has(Shapes);
  }

  /** How far the break moves: never below the start of the heap. */
  function Moved(th: Thread, increment: int): int {
    if -increment > th.size then 0 - th.size as int else increment
  }

  /** The shorter of two lists is the end of the longer: the low pages are the same. */
  predicate SameBelow(a: seq<Range>, b: seq<Range>) {
    if |a| <= |b| then b[|b| - |a|..] == a else a[|a| - |b|..] == b
  }

  /** Heap `t` has its break moved, and its pages below both breaks untouched; no other heap changes. */
  ghost predicate HeapMoved(s: Space, s': Space, t: nat, increment: int) {
    forall open {:trigger HeapMovedIf(open, s, s', t, increment)} :: HeapMovedIf(open, s, s', t, increment)
  }

  ghost predicate HeapMovedIf(open: bool, s: Space, s': Space, t: nat, increment: int) {
    open ==>
    && t in s.threads && t in s'.threads
    && s' == s.(threads := s.threads[t := s'.threads[t]], table := s'.table, used := s'.used)
    && s'.threads[t].start == s.threads[t].start
    && s'.threads[t].end == s.threads[t].end + Moved(s.threads[t], increment)
    && SameBelow(s.threads[t].pages, s'.threads[t].pages)
    && (increment == 0 ==> s' == s)
  }

  /** The new pages `top` are on top of heap `t`, mapped, and were nobody's before. */
  ghost predicate Gained(s: Space, s': Space, t: nat, top: seq<Range>) {
    forall open {:trigger GainedIf(open, s, s', t, top)} :: GainedIf(open, s, s', t, top)
  }

  ghost predicate GainedIf(open: bool, s: Space, s': Space, t: nat, top: seq<Range>) {
    open ==>
    && t in s.threads
    && Built(s.used, top, s.threads[t].end, s'.used)
    && s' == Grown(s, t, top, s'.table, s'.used)
  }

  lemma NotMoved(s: Space, t: nat)
    requires t in s.threads
    ensures HeapMoved(s, s, t, 0)
  {
  }

  lemma GrownMoves(s: Space, t: nat, top: seq<Range>, table: Table, used: set<nat>)
    requires t in s.threads && s.threads[t].Covered() && top != []
    ensures HeapMoved(s, Grown(s, t, top, table, used), t, |top|)
  {
    assert (top + s.threads[t].pages)[|top|..] == s.threads[t].pages;
  }

  lemma ShrunkMoves(s: Space, t: nat, n: nat, table: Table, used: set<nat>)
    requires t in s.threads && s.threads[t].Covered() && n > 0
    ensures HeapMoved(s, ShrunkBy(s, t, if n > s.threads[t].size then s.threads[t].size else n, table, used), t,
            0 - n as int)
  {
  }

  /** The state with the `n` highest pages of heap `t` gone. */
  ghost function ShrunkBy(s: Space, t: nat, n: nat, table: Table, used: set<nat>): Space
    requires t in s.threads && s.threads[t].Covered() && n <= |s.threads[t].pages|
  {
    s.(threads := s.threads[t := Dropped(s.threads[t], n)], table := table, used := used)
  }

  lemma ShrunkByOneMore(s: Space, t: nat, done: nat, cur: Space, table: Table, used: set<nat>)
    requires Active(s, t) && s.threads[t].Covered() && done < |s.threads[t].pages|
    requires cur.Holds() && cur == ShrunkBy(s, t, done, cur.table, cur.used)
    requires cur.used == s.used - FramesOf(s.threads[t].pages[..done])
    requires used == cur.used - {s.threads[t].pages[done].frame}
             && Unmaps(cur.table, table, s.threads[t].end - done - 1, 1)
    ensures ShrunkBy(s, t, done + 1, table, used).Holds()
    ensures used == s.used - FramesOf(s.threads[t].pages[..done + 1])
    ensures s.threads[t].pages[done..][1..] == s.threads[t].pages[done + 1..]
  {
    TopPage(cur, t);
    DroppedOneMore(s.threads[t], done);
    ShrunkHolds(cur, t, ShrunkBy(s, t, done + 1, table, used));
    assert s.threads[t].pages[done..][1..] == s.threads[t].pages[done + 1..];
  }

  lemma NoneDropped(s: Space, t: nat)
    requires t in s.threads && s.threads[t].Covered()
    ensures ShrunkBy(s, t, 0, s.table, s.used) == s && s.threads[t].pages[0..] == s.threads[t].pages
    ensures FramesOf(s.threads[t].pages[..0]) == {}
  {
    assert s.threads[t].pages[0..] == s.threads[t].pages;
  }

  /** Growing a heap and shrinking it by as much gives back the whole state, the MMU table included. */
  lemma GrowThenShrink(s: Space, s1: Space, s2: Space, t: nat, top: seq<Range>)
    requires s.Holds() && s2.Holds() && Gained(s, s1, t, top)
    requires t in s1.threads && s1.threads[t].Covered() && |top| <= |s1.threads[t].pages|
    requires s2 == ShrunkBy(s1, t, |top|, s2.table, s1.used - FramesOf(s1.threads[t].pages[..|top|]))
    ensures s2 == s
  {
    assert s.Has(Shown) && s2.Has(Shown);
    assert GainedIf(true, s, s1, t, top) && BuiltIf(true, s.used, top, s.threads[t].end, s1.used);
    var th := s.threads[t];
    assert (top + th.pages)[|top|..] == th.pages && (top + th.pages)[..|top|] == top;
    assert Dropped(Extended(th, top), |top|) == th;
    assert s2.threads == s.threads && s2.used == s.used;
    TableIsDetermined(s, s2);
  }

  lemma DroppedOneMore(th: Thread, done: nat)
    requires th.Covered() && done < |th.pages|
    ensures Lowered(Dropped(th, done)) == Dropped(th, done + 1)
    ensures Dropped(th, done).pages[0] == th.pages[done] && th.pages[done].size == 1
    ensures FramesOf(th.pages[..done + 1]) == FramesOf(th.pages[..done]) + {th.pages[done].frame}
  {
    assert th.pages[done..][1..] == th.pages[done + 1..];
    var more, fewer := th.pages[..done + 1], th.pages[..done];
    forall f | f in FramesOf(more) ensures f in FramesOf(fewer) || f == th.pages[done].frame {
      var i :| 0 <= i < |more| && more[i].frame == f;
      if i < done { assert fewer[i].frame == f; }
    }
    assert more[done].frame == th.pages[done].frame;
    forall f | f in FramesOf(fewer) ensures f in FramesOf(more) {
      var i :| 0 <= i < |fewer| && fewer[i].frame == f;
      assert more[i].frame == f;
    }
  }

  method Boot(psram: nat) returns (p: Pool, frame: nat, v: Pool, m: Mmu)
    requires 2 <= psram && Pow2(OrderFor(psram)) < 2 * (psram - 1)
    ensures fresh(p.repr) && fresh(v.repr) && fresh(m) && Separated(p, v, m)
    ensures PagePool(p) && frame != 0 && Used(p) == {frame}
    ensures RangePool(v) && v.LiveMap() == map[]
    ensures m.table == map[0 := 0, FB_START := frame]
  {
    p := BootPages(psram);
    frame := FirstPage(p);
    v := BootAddresses();
    m := BootTable(frame);
  }

  /** The page allocator, with every page free. */
  method BootPages(psram: nat) returns (p: Pool)
    requires 2 <= psram && Pow2(OrderFor(psram)) < 2 * (psram - 1)
    ensures PagePool(p) && p in p.repr && fresh(p.repr) && p.LiveMap() == map[] && Available(p) > 0
  {
    p := new Pool(psram, psram - 1);
    Counter(p);
    assert 0 !in p.LiveMap();
  }

  /** The first page that is handed out, for the framebuffer allocator's metadata. */
  method FirstPage(p: Pool) returns (frame: nat)
    requires PagePool(p) && p.LiveMap() == map[] && Available(p) > 0
    modifies p.repr
    ensures PagePool(p) && frame != 0 && Used(p) == {frame}
  {
    frame := PageAllocate(p);
    OnePageUsed(p.LiveMap(), frame);
  }

  lemma OnePageUsed(live: Tile, frame: nat)
    requires frame > 0 && live == map[frame - 1 := 0]
    ensures Raised(live.Keys) == {frame}
  {
    assert live.Keys == {frame - 1};
  }

  /** The framebuffer allocator. */
  method BootAddresses() returns (v: Pool)
    ensures RangePool(v) && v in v.repr && fresh(v.repr) && v.LiveMap() == map[]
  {
    Powers();
    v := new Pool(FB_TOTAL, FB_TOTAL - 1);
  }

  method BootTable(frame: nat) returns (m: Mmu)
    ensures fresh(m) && m.table == map[0 := 0, FB_START := frame]
  {
    m := new Mmu();
    var ok := m.MapRegion(0, 0, 1);
    ghost var t := m.table;
    assert FB_START !in t by {
      assert FB_START in t ==> Entry(t, FB_START, t[FB_START]);
    }
    ok := m.MapRegion(FB_START, frame, 1);
    BootEntries(t, m.table, frame);
  }

  lemma BootEntries(t: Table, t': Table, frame: nat)
    requires MapsSegment(map[], t, 0, 0, 1) && MapsSegment(t, t', FB_START, frame, 1)
    ensures t' == map[0 := 0, FB_START := frame]
  {
    assert Entry(t, 0, 0) && Entry(t', 0, 0) && Entry(t', FB_START, frame);
    forall v | v in t' ensures v == 0 || v == FB_START {
      assert Entry(t', v, t'[v]);
      assert Entry(t, v, t'[v]) ==> !Entry(map[], v, t'[v]);
    }
  }

  lemma Powers()
    ensures OrderFor(FB_TOTAL) == 9 && Pow2(9) == 512
  {
    assert Pow2(5) == 32;
    assert Pow2(8) == 256;
    OrderForUnique(FB_TOTAL, 9);
  }

  lemma InitialHolds(s: Space)
    requires s.threads == map[KERNEL := Thread([], KERNEL_START, KERNEL_START, 0)]
    requires s.tasks == map[] && s.current == 0 && s.buffers == map[] && s.used == {s.meta} && s.meta != 0
    requires s.table == map[0 := 0, FB_START := s.meta] && USER_START <= s.high
    ensures s.Holds() && Placed(s.buffers, map[], NONE)
  {
    assert s.Owns(Metadata, s.meta) && s.DueAt(Metadata, FB_START) && s.ShownBy(Metadata, FB_START, s.meta);
    assert s.ThreadFits(KERNEL);
    forall o, f: nat | s.Owns(o, f) ensures o == Metadata {
      if o.Heap? { assert !PageAt([], KERNEL_START, o.page, f); }
    }
    SpaceHolds(s);
  }
}
