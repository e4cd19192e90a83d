// Who has which physical page, and what the MMU table shows: the state shared by
// sbrk, the context switch, the reaper and the framebuffers, as a value.
//
// Virtual addresses are page numbers from the bottom of external memory. The kernel
// heap is [1, 80); page 80 is the metadata page of the framebuffer allocator, which
// manages the 399 pages above it; processes have the pages from 512 on.
module AddressSpaces {
  import opened Frames
  import opened Mmu

  const KERNEL: nat := 0 // the kernel's thread structure, and its pid
  const KERNEL_START: nat := 1 // KERNEL_HEAP_START
  const FB_START: nat := 80 // FRAMEBUFFER_HEAP_START
  const USER_START: nat := 512 // VADDR_TASK_START

  /** task_thread_t: the heap of the tasks that share it. */
  datatype Thread = Thread(pages: seq<Range>, start: nat, end: nat, size: nat)
  {
    predicate Covered() {
      Chain(pages, start) && size == |pages| && end == start + size
    }
  }

  /** The two framebuffers of a window. */
  datatype Key = Key(window: nat, slot: nat)

  /** managed_framebuffer_t: `numPages` of virtual space, the last of them a guard page. */
  datatype Buffer = Buffer(pixels: nat, pages: seq<Range>, numPages: nat)
  {
    /** The page where the buffer is mapped now: the address of the tail range. */
    function Loc(): nat {
      if pages == [] then 0 else pages[|pages| - 1].vaddr
    }

    predicate Covered() {
      && |pages| == numPages - 1 >= 1 && Chain(pages, Loc())
      && FB_START < Loc() && Loc() + numPages <= USER_START
    }
  }

  /** The holders of physical pages. */
  datatype Owner = Metadata | Heap(thread: nat, page: nat) | Pixels(buffer: Key, offset: nat)

  datatype Aspect = Shapes | Windows | Owners | Shown

  datatype Space = Space(
    table: Table,
    threads: map<nat, Thread>,
    tasks: map<nat, nat>, // pid to thread structure
    current: nat, // current_mapped_task, 0 for none
    buffers: map<Key, Buffer>,
    used: set<nat>, // the physical pages handed out by the page allocator
    meta: nat, // the page of the framebuffer allocator's metadata
    high: nat) // SOC_EXTRAM_HIGH
  {
    ghost predicate Owns(o: Owner, f: nat) {
      match o
      case Metadata => f == meta
      case Heap(t, v) => t in threads && PageAt(threads[t].pages, threads[t].start, v, f)
      case Pixels(k, i) =>
        k in buffers && i < |buffers[k].pages| && buffers[k].pages[|buffers[k].pages| - 1 - i].frame == f
    }

    /** The owner's page is due at virtual page `v`. */
    ghost predicate DueAt(o: Owner, v: nat) {
      match o
      case Metadata => v == FB_START
      case Heap(t, page) => v == page && (t == KERNEL || (current in tasks && tasks[current] == t))
      case Pixels(k, i) => k in buffers && v == buffers[k].Loc() + i
    }

    ghost predicate ShownBy(o: Owner, v: nat, f: nat) {
      Owns(o, f) && DueAt(o, v)
    }

    /** What the MMU table is to show: the allocator's page, and every page that is due. */
    ghost predicate Due(v: nat, f: nat) {
      (v == 0 && f == 0) || exists o :: ShownBy(o, v, f)
    }

    ghost predicate BuffersApart(k: Key, l: Key)
      requires k in buffers && l in buffers
    {
      var a, b := buffers[k], buffers[l];
      a.Loc() + a.numPages <= b.Loc() || b.Loc() + b.numPages <= a.Loc()
    }

    ghost predicate ThreadFits(t: nat)
      requires t in threads
    {
      && threads[t].Covered()
      && if t == KERNEL then threads[t].start == KERNEL_START && threads[t].end <= FB_START
         else threads[t].start == USER_START && threads[t].end <= high
    }

    ghost predicate Has(a: Aspect) {
      match a
      case Shapes =>
        && KERNEL in threads && USER_START <= high
        && (forall t {:trigger ThreadFits(t)} | t in threads :: ThreadFits(t))
        && (forall p | p in tasks :: p != KERNEL && tasks[p] in threads && tasks[p] != KERNEL)
        && (current == 0 || current in tasks)
      case Windows =>
        && (forall k | k in buffers :: buffers[k].Covered())
        && (forall k, l {:trigger BuffersApart(k, l)} | k in buffers && l in buffers && k != l :: BuffersApart(k, l))
      case Owners =>
        && 0 !in used
        && (forall f: nat :: f in used <==> exists o :: Owns(o, f))
        && (forall f: nat, o, o' {:trigger Owns(o, f), Owns(o', f)} | Owns(o, f) && Owns(o', f) :: o == o')
      case Shown =>
        forall v: nat, f: nat {:trigger Entry(table, v, f)} {:trigger Due(v, f)} :: Entry(table, v, f) <==> Due(v, f)
    }

    ghost predicate Holds() {
      forall a {:trigger Has(a)} :: Has(a)
    }
  }

  lemma SpaceHolds(s: Space)
    requires s.Has(Shapes) && s.Has(Windows) && s.Has(Owners) && s.Has(Shown)
    ensures s.Holds()
  {
    forall a ensures s.Has(a) {
      match a case Shapes => case Windows => case Owners => case Shown =>
    }
  }

  // ---- Where a page can be ----

  /** A mapped page lies in the window of what it belongs to. */
  lemma MappedWhere(s: Space, v: nat) returns (o: Owner)
    requires s.Holds() && v in s.table && v != 0
    ensures s.Owns(o, s.table[v]) && s.DueAt(o, v)
    ensures match o
            case Metadata => v == FB_START
            case Heap(t, page) =>
              && t in s.threads && s.threads[t].start <= v < s.threads[t].end
              && if t == KERNEL then v < FB_START else v >= USER_START
            case Pixels(k, i) =>
              && k in s.buffers && s.buffers[k].Loc() <= v < s.buffers[k].Loc() + s.buffers[k].numPages - 1
              && FB_START < v < USER_START
  {
    assert s.Has(Shown) && s.Has(Shapes) && s.Has(Windows);
    assert Entry(s.table, v, s.table[v]);
    o :| s.ShownBy(o, v, s.table[v]);
    if o.Heap? { assert s.ThreadFits(o.thread); }
  }

  lemma DueIsMapped(s: Space, o: Owner, f: nat, v: nat)
    requires s.Has(Shown) && s.Owns(o, f) && s.DueAt(o, v)
    ensures Entry(s.table, v, f)
  {
    assert s.ShownBy(o, v, f) && s.Due(v, f);
  }

  /** Nothing of another buffer, of a heap or of the metadata is mapped in a buffer's span. */
  lemma MappedInBuffer(s: Space, k: Key, v: nat)
    requires s.Holds() && k in s.buffers
    requires s.buffers[k].Loc() <= v < s.buffers[k].Loc() + s.buffers[k].numPages
    ensures v in s.table <==> v != s.buffers[k].Loc() + s.buffers[k].numPages - 1
  {
    assert s.Has(Windows) && s.Has(Shown);
    var b := s.buffers[k];
    if v < b.Loc() + |b.pages| {
      var i := v - b.Loc();
      DueIsMapped(s, Pixels(k, i), b.pages[|b.pages| - 1 - i].frame, v);
    } else {
      forall l | l in s.buffers && l != k
        ensures !(s.buffers[l].Loc() <= v < s.buffers[l].Loc() + s.buffers[l].numPages)
      {
        assert s.BuffersApart(k, l);
      }
      if v in s.table {
        var o := MappedWhere(s, v);
      }
    }
  }

  /** The guard page above each framebuffer is not mapped. */
  lemma GuardPagesUnmapped(s: Space, k: Key)
    requires s.Holds() && k in s.buffers
    ensures s.buffers[k].Loc() + s.buffers[k].numPages - 1 !in s.table
  {
    assert s.Has(Windows);
    MappedInBuffer(s, k, s.buffers[k].Loc() + s.buffers[k].numPages - 1);
  }

  /** A whole chain mapped for new holders. */
  lemma ShownAdded(s: Space, s': Space, ranges: seq<Range>, start: nat)
    requires s.Has(Shown) && Maps(s.table, s'.table, ranges, start)
    requires forall o, v: nat, f: nat {:trigger s.ShownBy(o, v, f)} :: s.ShownBy(o, v, f) ==> s'.ShownBy(o, v, f)
    requires forall o, v: nat, f: nat {:trigger s'.ShownBy(o, v, f)} ::
               s'.ShownBy(o, v, f) ==> s.ShownBy(o, v, f) || PageAt(ranges, start, v, f)
    requires forall v: nat, f: nat {:trigger PageAt(ranges, start, v, f)} ::
               PageAt(ranges, start, v, f) ==> exists o :: s'.ShownBy(o, v, f)
    ensures s'.Has(Shown)
  {
    forall v: nat, f: nat ensures Entry(s'.table, v, f) <==> s'.Due(v, f) {
      if o :| s.ShownBy(o, v, f) { assert s'.ShownBy(o, v, f); }
      if o :| s'.ShownBy(o, v, f) { assert s.ShownBy(o, v, f) || PageAt(ranges, start, v, f); }
    }
  }

  /** A span of pages unmapped, which those that remain due do not use. */
  lemma ShownRemoved(s: Space, s': Space, start: nat, len: nat)
    requires s.Has(Shown) && Unmaps(s.table, s'.table, start, len) && start > 0
    requires forall o, v: nat, f: nat {:trigger s'.ShownBy(o, v, f)} {:trigger s.ShownBy(o, v, f)} ::
               s'.ShownBy(o, v, f) <==> s.ShownBy(o, v, f) && !(start <= v < start + len)
    ensures s'.Has(Shown)
  {
    forall v: nat, f: nat ensures Entry(s'.table, v, f) <==> s'.Due(v, f) {
      if !(start <= v < start + len) {
        if o :| s.ShownBy(o, v, f) { assert s'.ShownBy(o, v, f); }
      }
      if o :| s'.ShownBy(o, v, f) { assert s.ShownBy(o, v, f); }
    }
  }

  // ---- Ownership ----

  /** New pages, each with one holder, next to what there was. */
  lemma OwnersAdded(s: Space, s': Space, frames: set<nat>)
    requires s.Has(Owners) && frames !! s.used && 0 !in frames && s'.used == s.used + frames
    requires forall o, f: nat {:trigger s'.Owns(o, f)} :: s.Owns(o, f) ==> s'.Owns(o, f)
    requires forall o, f: nat {:trigger s'.Owns(o, f)} :: s'.Owns(o, f) ==> s.Owns(o, f) || f in frames
    requires forall f | f in frames :: exists o :: s'.Owns(o, f)
    requires forall o, o', f: nat {:trigger s'.Owns(o, f), s'.Owns(o', f)} |
               f in frames && s'.Owns(o, f) && s'.Owns(o', f) :: o == o'
    ensures s'.Has(Owners)
  {
    forall f: nat ensures f in s'.used <==> exists o :: s'.Owns(o, f) {
      if f in s.used {
        var o :| s.Owns(o, f);
        assert s'.Owns(o, f);
      }
    }
    forall f: nat, o, o' | s'.Owns(o, f) && s'.Owns(o', f) ensures o == o' {
      if f !in frames {
        assert s.Owns(o, f) && s.Owns(o', f);
      }
    }
  }

  /** Pages given back by their holders. */
  lemma OwnersRemoved(s: Space, s': Space, frames: set<nat>)
    requires s.Has(Owners) && s'.used == s.used - frames
    requires forall o, f: nat {:trigger s'.Owns(o, f)} :: s'.Owns(o, f) <==> s.Owns(o, f) && f !in frames
    ensures s'.Has(Owners)
  {
    forall f: nat ensures f in s'.used <==> exists o :: s'.Owns(o, f) {
      if f in s'.used {
        var o :| s.Owns(o, f);
        assert s'.Owns(o, f);
      }
      if o :| s'.Owns(o, f) {
        assert s.Owns(o, f);
      }
    }
    forall f: nat, o, o' | s'.Owns(o, f) && s'.Owns(o', f) ensures o == o' {
      assert s.Owns(o, f) && s.Owns(o', f);
    }
  }

  /** Every physical page in use has exactly one holder, and no free page has any. */
  lemma OneOwner(s: Space, f: nat)
    requires s.Holds()
    ensures f in s.used <==> exists o :: s.Owns(o, f)
    ensures forall o, o' | s.Owns(o, f) && s.Owns(o', f) :: o == o'
  {
    assert s.Has(Owners);
  }

  lemma BuffersSame(s: Space, s': Space)
    requires s.Has(Windows) && s'.buffers == s.buffers
    ensures s'.Has(Windows)
  {
    forall k, l | k in s'.buffers && l in s'.buffers && k != l ensures s'.BuffersApart(k, l) {
      assert s.BuffersApart(k, l);
    }
  }

  // ---- Growing a heap ----

  lemma ChainOnTop(top: seq<Range>, ranges: seq<Range>, start: nat)
    requires Chain(ranges, start) && Chain(top, start + |ranges|)
    ensures Chain(top + ranges, start)
    ensures forall v: nat, f: nat {:trigger PageAt(top + ranges, start, v, f)} ::
              PageAt(top + ranges, start, v, f) <==> PageAt(top, start + |ranges|, v, f) || PageAt(ranges, start, v, f)
  {
  }

  /** The thread with new ranges on top of its list. */
  function Extended(t: Thread, top: seq<Range>): Thread {
    Thread(top + t.pages, t.start, t.end + |top|, t.size + |top|)
  }

  /** why_sbrk on thread `t` after it mapped `top`. */
  function Grown(s: Space, t: nat, top: seq<Range>, table: Table, used: set<nat>): Space
    requires t in s.threads
  {
    s.(threads := s.threads[t := Extended(s.threads[t], top)], table := table, used := used)
  }

  /** The heap of `t` is the kernel's or that of the current task. */
  ghost predicate Active(s: Space, t: nat) {
    t in s.threads && (t == KERNEL || (s.current in s.tasks && s.tasks[s.current] == t))
  }

  ghost predicate Room(s: Space, t: nat, n: nat) {
    t in s.threads && s.threads[t].end + n <= if t == KERNEL then FB_START else s.high
  }

  /** The pages above an active heap are free to map exactly when they stay in its window. */
  lemma ClearAbove(s: Space, t: nat, n: nat)
    requires s.Holds() && Active(s, t)
    requires t == KERNEL || Room(s, t, n)
    ensures Clear(s.table, s.threads[t].end, n) <==> Room(s, t, n)
  {
    assert s.Has(Shapes) && s.Has(Shown);
    assert s.ThreadFits(t);
    var end := s.threads[t].end;
    if Room(s, t, n) {
      forall v: nat | end <= v < end + n ensures v !in s.table {
        if v in s.table {
          var o := MappedWhere(s, v);
        }
      }
    } else {
      DueIsMapped(s, Metadata, s.meta, FB_START);
    }
  }

  lemma GrownOwns(s: Space, t: nat, top: seq<Range>, table: Table, used: set<nat>)
    requires t in s.threads && s.threads[t].Covered() && Chain(top, s.threads[t].end)
    ensures var s' := Grown(s, t, top, table, used);
            forall o, f: nat {:trigger s'.Owns(o, f)} ::
              s'.Owns(o, f) <==> s.Owns(o, f) || (o.Heap? && o.thread == t && PageAt(top, s.threads[t].end, o.page, f))
  {
    ChainOnTop(top, s.threads[t].pages, s.threads[t].start);
  }

  lemma GrownHolds(s: Space, t: nat, top: seq<Range>, table: Table, used: set<nat>)
    requires s.Holds() && Active(s, t) && Room(s, t, |top|)
    requires Built(s.used, top, s.threads[t].end, used)
    requires Maps(s.table, table, top, s.threads[t].end)
    ensures Grown(s, t, top, table, used).Holds()
  {
    assert BuiltIf(true, s.used, top, s.threads[t].end, used);
    assert s.Has(Shapes) && s.Has(Windows) && s.Has(Owners) && s.Has(Shown);
    assert s.ThreadFits(t);
    var s' := Grown(s, t, top, table, used);
    ChainOnTop(top, s.threads[t].pages, s.threads[t].start);
    GrownOwns(s, t, top, table, used);
    assert s'.Has(Shapes) by {
      forall u | u in s'.threads ensures s'.ThreadFits(u) {
        if u != t { assert s.ThreadFits(u); }
      }
    }
    BuffersSame(s, s');
    GrownOwners(s, t, top, table, used);
    GrownShown(s, t, top, table, used);
    SpaceHolds(s');
  }

  lemma GrownOwners(s: Space, t: nat, top: seq<Range>, table: Table, used: set<nat>)
    requires s.Has(Owners) && t in s.threads && s.threads[t].Covered()
    requires Built(s.used, top, s.threads[t].end, used)
    ensures Grown(s, t, top, table, used).Has(Owners)
  {
    assert BuiltIf(true, s.used, top, s.threads[t].end, used);
    var s', end := Grown(s, t, top, table, used), s.threads[t].end;
    GrownOwns(s, t, top, table, used);
    forall f | f in FramesOf(top) ensures exists o :: s'.Owns(o, f) {
      var i :| 0 <= i < |top| && top[i].frame == f;
      assert PageAt(top, end, top[i].vaddr, f);
      assert s'.Owns(Heap(t, top[i].vaddr), f);
    }
    forall o, f: nat | s.Owns(o, f) ensures f !in FramesOf(top) {
      assert f in s.used;
    }
    OwnersAdded(s, s', FramesOf(top));
  }

  lemma GrownShown(s: Space, t: nat, top: seq<Range>, table: Table, used: set<nat>)
    requires s.Has(Shown) && Active(s, t) && s.threads[t].Covered()
    requires Chain(top, s.threads[t].end) && Maps(s.table, table, top, s.threads[t].end)
    ensures Grown(s, t, top, table, used).Has(Shown)
  {
    var s', end := Grown(s, t, top, table, used), s.threads[t].end;
    GrownOwns(s, t, top, table, used);
    forall v: nat, f: nat | PageAt(top, end, v, f) ensures exists o :: s'.ShownBy(o, v, f) {
      assert s'.Owns(Heap(t, v), f) && s'.ShownBy(Heap(t, v), v, f);
    }
    ShownAdded(s, s', top, end);
  }

  // ---- Shrinking a heap ----

  /** The thread without its highest page. */
  function Lowered(t: Thread): Thread
    requires t.pages != [] && t.end > 0 && t.size > 0
  {
    Thread(t.pages[1..], t.start, t.end - 1, t.size - 1)
  }

  ghost predicate Shrunk(s: Space, t: nat, s': Space) {
    && t in s.threads && s.threads[t].Covered() && s.threads[t].pages != []
    && s' == s.(threads := s.threads[t := Lowered(s.threads[t])], table := s'.table,
                used := s.used - {s.threads[t].pages[0].frame})
    && Unmaps(s.table, s'.table, s.threads[t].end - 1, 1)
  }

  lemma ShrunkHolds(s: Space, t: nat, s': Space)
    requires s.Holds() && Active(s, t) && Shrunk(s, t, s')
    ensures s'.Holds()
  {
    assert s.Has(Shapes) && s.Has(Windows) && s.Has(Owners) && s.Has(Shown);
    assert s.ThreadFits(t);
    assert s'.Has(Shapes) by {
      forall u | u in s'.threads ensures s'.ThreadFits(u) {
        if u != t { assert s.ThreadFits(u); }
      }
    }
    BuffersSame(s, s');
    ShrunkOwns(s, t, s');
    OwnersRemoved(s, s', {s.threads[t].pages[0].frame});
    ShrunkShown(s, t, s');
    SpaceHolds(s');
  }

  /** The highest page of a heap is in use, mapped when the heap is active, and held by the heap alone. */
  lemma TopPage(s: Space, t: nat)
    requires s.Holds() && t in s.threads && s.threads[t].pages != []
    ensures var th := s.threads[t];
            && th.Covered() && th.pages[0].vaddr == th.end - 1 && th.pages[0].size == 1
            && th.pages[0].frame in s.used
            && s.Owns(Heap(t, th.end - 1), th.pages[0].frame)
            && (Active(s, t) ==> Full(s.table, th.end - 1, 1))
  {
    assert s.Has(Shapes) && s.Has(Owners) && s.Has(Shown);
    assert s.ThreadFits(t);
    var th := s.threads[t];
    var o, f := Heap(t, th.end - 1), th.pages[0].frame;
    assert s.Owns(o, f);
    if Active(s, t) {
      DueIsMapped(s, o, f, th.end - 1);
    }
  }

  lemma ShrunkOwns(s: Space, t: nat, s': Space)
    requires s.Has(Owners) && Shrunk(s, t, s')
    ensures forall o, f: nat {:trigger s'.Owns(o, f)} ::
              s'.Owns(o, f) <==> s.Owns(o, f) && f !in {s.threads[t].pages[0].frame}
    ensures forall o, f: nat {:trigger s'.Owns(o, f)} ::
              s'.Owns(o, f) <==> s.Owns(o, f) && o != Heap(t, s.threads[t].end - 1)
  {
    var th, top := s.threads[t], s.threads[t].pages[0].frame;
    assert s.Owns(Heap(t, th.end - 1), top);
    forall o, f: nat
      ensures s'.Owns(o, f) <==> s.Owns(o, f) && o != Heap(t, th.end - 1)
      ensures s.Owns(o, f) ==> (o == Heap(t, th.end - 1) <==> f == top)
    {
      if s.Owns(o, f) && f == top {
        assert s.Owns(Heap(t, th.end - 1), f);
      }
    }
  }

  lemma ShrunkShown(s: Space, t: nat, s': Space)
    requires s.Has(Shapes) && s.Has(Owners) && s.Has(Shown) && s.Holds() && Active(s, t) && Shrunk(s, t, s')
    ensures s'.Has(Shown)
  {
    var gone := s.threads[t].end - 1;
    assert s.ThreadFits(t);
    ShrunkOwns(s, t, s');
    forall o, v: nat, f: nat ensures s'.ShownBy(o, v, f) <==> s.ShownBy(o, v, f) && v != gone {
      if s.ShownBy(o, v, f) && v == gone {
        OneShown(s, o, f, Heap(t, gone), s.threads[t].pages[0].frame, gone);
      }
    }
    ShownRemoved(s, s', gone, 1);
  }

  /** Only one holder shows at a virtual page. */
  lemma OneShown(s: Space, o: Owner, f: nat, o': Owner, f': nat, v: nat)
    requires s.Has(Owners) && s.Has(Shown) && s.Owns(o, f) && s.DueAt(o, v) && s.Owns(o', f') && s.DueAt(o', v)
    ensures o == o'
  {
    DueIsMapped(s, o, f, v);
    DueIsMapped(s, o', f', v);
  }

  // ---- Context switches, tasks and thread structures ----

  /** remap_task finds its pages free, since no process is mapped. */
  lemma ClearForSwitch(s: Space, t: nat)
    requires s.Holds() && s.current == 0 && t in s.threads && t != KERNEL
    ensures s.threads[t].Covered() && Clear(s.table, s.threads[t].start, |s.threads[t].pages|)
  {
    assert s.Has(Shapes);
    assert s.ThreadFits(t);
    var start := s.threads[t].start;
    forall v: nat | start <= v < start + |s.threads[t].pages| ensures v !in s.table {
      if v in s.table {
        var o := MappedWhere(s, v);
      }
    }
  }

  /** A task on the kernel's own thread structure could be switched in only while the kernel's heap is empty. */
  lemma KernelHeapIsMapped(s: Space)
    requires s.Holds()
    ensures KERNEL in s.threads && s.threads[KERNEL].Covered()
    ensures var k := s.threads[KERNEL]; Clear(s.table, k.start, |k.pages|) <==> k.pages == []
  {
    assert s.Has(Shapes) && s.Has(Shown);
    assert s.ThreadFits(KERNEL);
    var k := s.threads[KERNEL];
    if k.pages != [] {
      DueIsMapped(s, Heap(KERNEL, k.start), k.pages[|k.pages| - 1].frame, k.start);
    }
  }

  lemma SwitchedInHolds(s: Space, p: nat, table: Table)
    requires s.Holds() && s.current == 0 && p in s.tasks && s.tasks[p] in s.threads
    requires var th := s.threads[s.tasks[p]]; Maps(s.table, table, th.pages, th.start)
    ensures s.(current := p, table := table).Holds()
  {
    assert s.Has(Shapes) && s.Has(Windows) && s.Has(Owners) && s.Has(Shown);
    var s', t := s.(current := p, table := table), s.tasks[p];
    SameShapes(s, s');
    OwnersRemoved(s, s', {});
    forall v: nat, f: nat | PageAt(s.threads[t].pages, s.threads[t].start, v, f)
      ensures exists o :: s'.ShownBy(o, v, f)
    {
      assert s'.ShownBy(Heap(t, v), v, f);
    }
    ShownAdded(s, s', s.threads[t].pages, s.threads[t].start);
    SpaceHolds(s');
  }

  lemma SameShapes(s: Space, s': Space)
    requires s.Has(Shapes) && s.Has(Windows) && s'.threads == s.threads && s'.buffers == s.buffers
             && s'.tasks == s.tasks
    requires s'.high == s.high && (s'.current == 0 || s'.current in s'.tasks)
    ensures s'.Has(Shapes) && s'.Has(Windows)
  {
    forall t | t in s'.threads ensures s'.ThreadFits(t) {
      assert s.ThreadFits(t);
    }
    BuffersSame(s, s');
  }

  /** unmap_task finds all the pages of the current task mapped. */
  lemma FullForSwitch(s: Space)
    requires s.Holds() && s.current != 0
    ensures s.current in s.tasks && s.tasks[s.current] in s.threads
    ensures var th := s.threads[s.tasks[s.current]]; th.Covered() && Full(s.table, th.start, |th.pages|)
  {
    assert s.Has(Shapes) && s.Has(Shown);
    var t := s.tasks[s.current];
    assert s.ThreadFits(t);
    var th := s.threads[t];
    forall v: nat | th.start <= v < th.start + |th.pages| ensures v in s.table {
      DueIsMapped(s, Heap(t, v), th.pages[th.start + |th.pages| - 1 - v].frame, v);
    }
  }

  lemma SwitchedOutHolds(s: Space, table: Table)
    requires s.Holds() && s.current != 0 && s.current in s.tasks && s.tasks[s.current] in s.threads
    requires var th := s.threads[s.tasks[s.current]]; Unmaps(s.table, table, th.start, |th.pages|)
    ensures s.(current := 0, table := table).Holds()
  {
    assert s.Has(Shapes) && s.Has(Windows) && s.Has(Owners) && s.Has(Shown);
    var s', t := s.(current := 0, table := table), s.tasks[s.current];
    var th := s.threads[t];
    assert s.ThreadFits(t);
    SameShapes(s, s');
    OwnersRemoved(s, s', {});
    forall o, v: nat, f: nat
      ensures s'.ShownBy(o, v, f) <==> s.ShownBy(o, v, f) && !(th.start <= v < th.start + |th.pages|)
    {
      if s.ShownBy(o, v, f) && th.start <= v < th.start + |th.pages| {
        OneShown(s, o, f, Heap(t, v), th.pages[th.start + |th.pages| - 1 - v].frame, v);
      }
    }
    ShownRemoved(s, s', th.start, |th.pages|);
    SpaceHolds(s');
  }

  /** The same pages for the same holders, due in the same places. */
  lemma SameOwnersHold(s: Space, s': Space)
    requires s.Has(Owners) && s.Has(Shown) && s'.used == s.used && s'.table == s.table
    requires forall o, f: nat {:trigger s'.Owns(o, f)} :: s'.Owns(o, f) <==> s.Owns(o, f)
    requires forall o, v: nat, f: nat {:trigger s'.ShownBy(o, v, f)} {:trigger s.ShownBy(o, v, f)} ::
               s'.ShownBy(o, v, f) <==> s.ShownBy(o, v, f)
    ensures s'.Has(Owners) && s'.Has(Shown)
  {
    OwnersRemoved(s, s', {});
    forall v: nat, f: nat ensures Entry(s'.table, v, f) <==> s'.Due(v, f) {
      if o :| s.ShownBy(o, v, f) { assert s'.ShownBy(o, v, f); }
      if o :| s'.ShownBy(o, v, f) { assert s.ShownBy(o, v, f); }
    }
  }

  /** task_thread_init: a heap without pages. */
  function WithThread(s: Space, t: nat): Space {
    s.(threads := s.threads[t := Thread([], USER_START, USER_START, 0)])
  }

  lemma NewThreadHolds(s: Space, t: nat)
    requires s.Holds() && t !in s.threads
    ensures WithThread(s, t).Holds()
  {
    assert s.Has(Shapes) && s.Has(Windows) && s.Has(Owners) && s.Has(Shown);
    BuffersSame(s, WithThread(s, t));
    NewThreadFits(s, t);
    NewThreadOwners(s, t);
    SpaceHolds(WithThread(s, t));
  }

  lemma NewThreadFits(s: Space, t: nat)
    requires s.Has(Shapes) && t !in s.threads
    ensures WithThread(s, t).Has(Shapes)
  {
    var s' := WithThread(s, t);
    forall u | u in s'.threads ensures s'.ThreadFits(u) {
      if u != t { assert s.ThreadFits(u); }
    }
  }

  lemma NewThreadOwners(s: Space, t: nat)
    requires s.Has(Owners) && s.Has(Shown) && t !in s.threads
    ensures WithThread(s, t).Has(Owners) && WithThread(s, t).Has(Shown)
  {
    var s' := WithThread(s, t);
    forall o, f: nat ensures s'.Owns(o, f) <==> s.Owns(o, f) {
      if o.Heap? && o.thread == t { assert !PageAt([], USER_START, o.page, f); }
    }
    SameOwnersHold(s, s');
  }

  lemma TaskAddedHolds(s: Space, p: nat, t: nat)
    requires s.Holds() && p !in s.tasks && p != 0 && t in s.threads && t != KERNEL
    ensures s.(tasks := s.tasks[p := t]).Holds()
  {
    assert s.Has(Shapes) && s.Has(Windows) && s.Has(Owners) && s.Has(Shown);
    var s' := s.(tasks := s.tasks[p := t]);
    TasksChanged(s, s');
    SameOwnersHold(s, s');
    SpaceHolds(s');
  }

  lemma TaskRemovedHolds(s: Space, p: nat)
    requires s.Holds() && p != s.current
    ensures s.(tasks := s.tasks - {p}).Holds()
  {
    assert s.Has(Shapes) && s.Has(Windows) && s.Has(Owners) && s.Has(Shown);
    var s' := s.(tasks := s.tasks - {p});
    TasksChanged(s, s');
    SameOwnersHold(s, s');
    SpaceHolds(s');
  }

  lemma TasksChanged(s: Space, s': Space)
    requires s.Has(Shapes) && s.Has(Windows) && s' == s.(tasks := s'.tasks)
    requires forall p | p in s'.tasks :: p != KERNEL && s'.tasks[p] in s.threads && s'.tasks[p] != KERNEL
    requires s.current == 0 || s.current in s'.tasks
    ensures s'.Has(Shapes) && s'.Has(Windows)
  {
    forall t | t in s'.threads ensures s'.ThreadFits(t) {
      assert s.ThreadFits(t);
    }
    BuffersSame(s, s');
  }

  /** The heap of a thread structure that no task uses is nowhere mapped, and can go as it is. */
  lemma ThreadGoneHolds(s: Space, t: nat)
    requires s.Holds() && t in s.threads && t != KERNEL && forall p | p in s.tasks :: s.tasks[p] != t
    ensures s.(threads := s.threads - {t}, used := s.used - FramesOf(s.threads[t].pages)).Holds()
    ensures Distinct(s.threads[t].pages) && FramesOf(s.threads[t].pages) <= s.used
  {
    assert s.Has(Shapes) && s.Has(Windows) && s.Has(Owners) && s.Has(Shown);
    var s' := s.(threads := s.threads - {t}, used := s.used - FramesOf(s.threads[t].pages));
    assert s.ThreadFits(t);
    HeapFrames(s, t);
    forall u | u in s'.threads ensures s'.ThreadFits(u) {
      assert s.ThreadFits(u);
    }
    BuffersSame(s, s');
    forall o, f: nat ensures s'.Owns(o, f) <==> s.Owns(o, f) && f !in FramesOf(s.threads[t].pages) {
      if s'.Owns(o, f) { assert s.Owns(o, f); }
    }
    OwnersRemoved(s, s', FramesOf(s.threads[t].pages));
    forall o, v: nat, f: nat ensures s'.ShownBy(o, v, f) <==> s.ShownBy(o, v, f) {
    }
    assert s'.Has(Shown) by {
      forall v: nat, f: nat ensures Entry(s'.table, v, f) <==> s'.Due(v, f) {
        if o :| s.ShownBy(o, v, f) { assert s'.ShownBy(o, v, f); }
        if o :| s'.ShownBy(o, v, f) { assert s.ShownBy(o, v, f); }
      }
    }
    SpaceHolds(s');
  }

  /** The pages of a heap are in use, distinct, and held by that heap only. */
  lemma HeapFrames(s: Space, t: nat)
    requires s.Has(Owners) && t in s.threads && s.threads[t].Covered()
    ensures Distinct(s.threads[t].pages) && FramesOf(s.threads[t].pages) <= s.used
    ensures forall o, f: nat {:trigger s.Owns(o, f)} | s.Owns(o, f) ::
              f in FramesOf(s.threads[t].pages) <==> o.Heap? && o.thread == t
  {
    var th := s.threads[t];
    forall i | 0 <= i < |th.pages| ensures s.Owns(Heap(t, th.end - 1 - i), th.pages[i].frame) {
    }
    forall o, f: nat | s.Owns(o, f) ensures f in FramesOf(th.pages) <==> o.Heap? && o.thread == t {
      if f in FramesOf(th.pages) {
        var i :| 0 <= i < |th.pages| && th.pages[i].frame == f;
        assert s.Owns(Heap(t, th.end - 1 - i), f);
      }
      if o.Heap? && o.thread == t {
        assert th.pages[th.start + |th.pages| - 1 - o.page].frame == f;
      }
    }
    forall i, j | 0 <= i < j < |th.pages| ensures th.pages[i].frame != th.pages[j].frame {
      assert s.Owns(Heap(t, th.end - 1 - i), th.pages[i].frame);
      assert s.Owns(Heap(t, th.end - 1 - j), th.pages[j].frame);
    }
  }

  // ---- What undoes what ----

  /** The table is a function of the rest of the state. */
  lemma TableIsDetermined(s: Space, s': Space)
    requires s.Has(Shown) && s'.Has(Shown) && s' == s.(table := s'.table)
    ensures s'.table == s.table
  {
    forall v: nat, f: nat ensures Entry(s.table, v, f) <==> Entry(s'.table, v, f) {
      assert s.Due(v, f) <==> s'.Due(v, f) by {
        if o :| s.ShownBy(o, v, f) { assert s'.ShownBy(o, v, f); }
        if o :| s'.ShownBy(o, v, f) { assert s.ShownBy(o, v, f); }
      }
    }
    forall v: nat ensures v in s.table <==> v in s'.table {
      if v in s.table { assert Entry(s.table, v, s.table[v]); }
      if v in s'.table { assert Entry(s'.table, v, s'.table[v]); }
    }
    forall v: nat | v in s.table ensures s.table[v] == s'.table[v] {
      assert Entry(s.table, v, s.table[v]);
    }
  }

  /** So are the pages in use: heaps, framebuffers and the current task determine everything. */
  lemma StateIsDetermined(s: Space, s': Space)
    requires s.Holds() && s'.Holds() && s' == s.(table := s'.table, used := s'.used)
    ensures s' == s
  {
    assert s.Has(Owners) && s'.Has(Owners) && s.Has(Shown) && s'.Has(Shown);
    forall f: nat ensures f in s.used <==> f in s'.used {
      if f in s.used { var o :| s.Owns(o, f); assert s'.Owns(o, f); }
      if f in s'.used { var o :| s'.Owns(o, f); assert s.Owns(o, f); }
    }
    TableIsDetermined(s, s');
  }

  /** The thread without its `n` highest pages. */
  function Dropped(t: Thread, n: nat): Thread
    requires n <= |t.pages| && n <= t.end && n <= t.size
  {
    Thread(t.pages[n..], t.start, t.end - n, t.size - n)
  }
}
