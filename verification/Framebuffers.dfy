// Framebuffers in the address space: creating one, freeing one, and exchanging the
// pages of the two buffers of a window.
module Framebuffers {
  import opened Dyadic
  import opened Tiling
  import opened Frames
  import opened Mmu
  import opened AddressSpaces

  // ---- A new framebuffer ----

  /** No page of [start, start + len) lies in the span of a buffer. */
  ghost predicate SpanFree(s: Space, start: nat, len: nat) {
    forall k {:trigger s.buffers[k]} | k in s.buffers ::
      start + len <= s.buffers[k].Loc() || s.buffers[k].Loc() + s.buffers[k].numPages <= start
  }

  lemma ClearInSpan(s: Space, start: nat, len: nat)
    requires s.Holds() && SpanFree(s, start, len) && FB_START < start && start + len <= USER_START
    ensures Clear(s.table, start, len)
  {
    forall v: nat | start <= v < start + len ensures v !in s.table {
      if v in s.table {
        var o := MappedWhere(s, v);
      }
    }
  }

  function WithBuffer(s: Space, k: Key, b: Buffer, table: Table, used: set<nat>): Space {
    s.(buffers := s.buffers[k := b], table := table, used := used)
  }

  lemma NewBufferHolds(s: Space, k: Key, b: Buffer, table: Table, used: set<nat>)
    requires s.Holds() && k !in s.buffers && b.Covered() && SpanFree(s, b.Loc(), b.numPages)
    requires Built(s.used, b.pages, b.Loc(), used) && Maps(s.table, table, b.pages, b.Loc())
    ensures WithBuffer(s, k, b, table, used).Holds()
  {
    assert BuiltIf(true, s.used, b.pages, b.Loc(), used);
    assert s.Has(Shapes) && s.Has(Windows) && s.Has(Owners) && s.Has(Shown);
    var s' := WithBuffer(s, k, b, table, used);
    ThreadsSame(s, s');
    forall i, j | i in s'.buffers && j in s'.buffers && i != j ensures s'.BuffersApart(i, j) {
      if i != k && j != k { assert s.BuffersApart(i, j); }
    }
    NewBufferOwners(s, k, b, table, used);
    NewBufferShown(s, k, b, table, used);
    SpaceHolds(s');
  }

  lemma ThreadsSame(s: Space, s': Space)
    requires s.Has(Shapes)
    requires s'.threads == s.threads && s'.tasks == s.tasks && s'.current == s.current && s'.high == s.high
    ensures s'.Has(Shapes)
  {
    forall t | t in s'.threads ensures s'.ThreadFits(t) {
      assert s.ThreadFits(t);
    }
  }

  lemma NewBufferOwns(s: Space, k: Key, b: Buffer, table: Table, used: set<nat>)
    requires k !in s.buffers && b.Covered()
    ensures var s' := WithBuffer(s, k, b, table, used);
            forall o, f: nat {:trigger s'.Owns(o, f)} ::
              s'.Owns(o, f) <==>
                s.Owns(o, f) || (o.Pixels? && o.buffer == k && PageAt(b.pages, b.Loc(), b.Loc() + o.offset, f))
  {
  }

  lemma NewBufferOwners(s: Space, k: Key, b: Buffer, table: Table, used: set<nat>)
    requires s.Has(Owners) && k !in s.buffers && b.Covered() && Built(s.used, b.pages, b.Loc(), used)
    ensures WithBuffer(s, k, b, table, used).Has(Owners)
  {
    assert BuiltIf(true, s.used, b.pages, b.Loc(), used);
    var s' := WithBuffer(s, k, b, table, used);
    NewBufferOwns(s, k, b, table, used);
    forall f | f in FramesOf(b.pages) ensures exists o :: s'.Owns(o, f) {
      var i :| 0 <= i < |b.pages| && b.pages[i].frame == f;
      assert s'.Owns(Pixels(k, |b.pages| - 1 - i), f);
    }
    forall o, f: nat | s.Owns(o, f) ensures f !in FramesOf(b.pages) {
      assert f in s.used;
    }
    OwnersAdded(s, s', FramesOf(b.pages));
  }

  lemma NewBufferShown(s: Space, k: Key, b: Buffer, table: Table, used: set<nat>)
    requires s.Has(Shown) && k !in s.buffers && b.Covered() && Maps(s.table, table, b.pages, b.Loc())
    ensures WithBuffer(s, k, b, table, used).Has(Shown)
  {
    var s' := WithBuffer(s, k, b, table, used);
    NewBufferOwns(s, k, b, table, used);
    forall v: nat, f: nat | PageAt(b.pages, b.Loc(), v, f) ensures exists o :: s'.ShownBy(o, v, f) {
      assert s'.ShownBy(Pixels(k, v - b.Loc()), v, f);
    }
    forall o, v: nat, f: nat
      ensures s.ShownBy(o, v, f) ==> s'.ShownBy(o, v, f)
      ensures s'.ShownBy(o, v, f) ==> s.ShownBy(o, v, f) || PageAt(b.pages, b.Loc(), v, f)
    {
      NewBufferShownBy(s, k, b, table, used, o, v, f);
    }
    ShownAdded(s, s', b.pages, b.Loc());
  }

  lemma NewBufferShownBy(s: Space, k: Key, b: Buffer, table: Table, used: set<nat>, o: Owner, v: nat, f: nat)
    requires k !in s.buffers && b.Covered()
    ensures var s' := WithBuffer(s, k, b, table, used);
            && (s.ShownBy(o, v, f) ==> s'.ShownBy(o, v, f))
            && (s'.ShownBy(o, v, f) ==> s.ShownBy(o, v, f) || PageAt(b.pages, b.Loc(), v, f))
  {
  }

  // ---- Freeing a framebuffer ----

  ghost function WithoutBuffer(s: Space, k: Key, table: Table): Space
    requires k in s.buffers
  {
    s.(buffers := s.buffers - {k}, table := table, used := s.used - FramesOf(s.buffers[k].pages))
  }

  lemma BufferFull(s: Space, k: Key)
    requires s.Holds() && k in s.buffers
    ensures s.buffers[k].Covered() && Full(s.table, s.buffers[k].Loc(), |s.buffers[k].pages|)
  {
    assert s.Has(Windows);
    var b := s.buffers[k];
    forall v: nat | b.Loc() <= v < b.Loc() + |b.pages| ensures v in s.table {
      MappedInBuffer(s, k, v);
    }
  }

  lemma BufferFrame(s: Space, k: Key, o: Owner, f: nat)
    requires s.Has(Owners) && k in s.buffers && s.Owns(o, f)
    ensures f in FramesOf(s.buffers[k].pages) <==> o.Pixels? && o.buffer == k
  {
    var pages := s.buffers[k].pages;
    if f in FramesOf(pages) {
      var i :| 0 <= i < |pages| && pages[i].frame == f;
      var at := Pixels(k, |pages| - 1 - i);
      assert s.Owns(at, f);
      assert o == at;
    }
  }

  lemma BufferOwns(s: Space, k: Key, i: nat)
    requires k in s.buffers && i < |s.buffers[k].pages|
    ensures s.Owns(Pixels(k, |s.buffers[k].pages| - 1 - i), s.buffers[k].pages[i].frame)
  {
  }

  /** The pages of a framebuffer are in use, distinct, and held by that framebuffer only. */
  lemma BufferFrames(s: Space, k: Key)
    requires s.Has(Owners) && k in s.buffers
    ensures Distinct(s.buffers[k].pages) && FramesOf(s.buffers[k].pages) <= s.used
    ensures forall o, f: nat {:trigger s.Owns(o, f)} | s.Owns(o, f) ::
              f in FramesOf(s.buffers[k].pages) <==> o.Pixels? && o.buffer == k
  {
    var pages := s.buffers[k].pages;
    forall o, f: nat | s.Owns(o, f) ensures f in FramesOf(pages) <==> o.Pixels? && o.buffer == k {
      BufferFrame(s, k, o, f);
    }
    forall f | f in FramesOf(pages) ensures f in s.used {
      var i :| 0 <= i < |pages| && pages[i].frame == f;
      BufferOwns(s, k, i);
    }
    forall i, j | 0 <= i < j < |pages| ensures pages[i].frame != pages[j].frame {
      BufferOwns(s, k, i);
      BufferOwns(s, k, j);
    }
  }

  /** A physical page is in use exactly when it is in a list of a heap or of a framebuffer, or the metadata page. */
  lemma {:induction false} UsedPages(s: Space, f: nat)
    requires s.Holds()
    ensures f in s.used <==>
              || f == s.meta
              || (exists t :: t in s.threads && f in FramesOf(s.threads[t].pages))
              || (exists k :: k in s.buffers && f in FramesOf(s.buffers[k].pages))
  {
    assert s.Has(Owners) && s.Has(Shapes);
    assert s.Owns(Metadata, s.meta);
    forall t | t in s.threads && f in FramesOf(s.threads[t].pages) ensures f in s.used {
      assert s.ThreadFits(t);
      HeapFrames(s, t);
    }
    forall k | k in s.buffers && f in FramesOf(s.buffers[k].pages) ensures f in s.used {
      BufferFrames(s, k);
    }
    if f in s.used {
      var o :| s.Owns(o, f);
      if o.Heap? {
        assert s.ThreadFits(o.thread);
        HeapFrames(s, o.thread);
      } else if o.Pixels? {
        BufferFrames(s, o.buffer);
      }
    }
  }

  /** No page is in two of these lists. */
  lemma {:induction false} ListsApart(s: Space, t: nat, u: nat, k: Key, l: Key)
    requires s.Holds() && t in s.threads && u in s.threads && k in s.buffers && l in s.buffers
    ensures t != u ==> FramesOf(s.threads[t].pages) !! FramesOf(s.threads[u].pages)
    ensures k != l ==> FramesOf(s.buffers[k].pages) !! FramesOf(s.buffers[l].pages)
    ensures FramesOf(s.threads[t].pages) !! FramesOf(s.buffers[k].pages)
  {
    assert s.Has(Owners) && s.Has(Shapes);
    assert s.ThreadFits(t) && s.ThreadFits(u);
    HeapFrames(s, t);
    HeapFrames(s, u);
    BufferFrames(s, k);
    BufferFrames(s, l);
    forall f: nat | f in s.used ensures exists o :: s.Owns(o, f) {
      OneOwner(s, f);
    }
  }

  lemma BufferGoneHolds(s: Space, k: Key, table: Table)
    requires s.Holds() && k in s.buffers
    requires Unmaps(s.table, table, s.buffers[k].Loc(), |s.buffers[k].pages|)
    ensures WithoutBuffer(s, k, table).Holds()
  {
    assert s.Has(Shapes) && s.Has(Windows) && s.Has(Owners) && s.Has(Shown);
    var s' := WithoutBuffer(s, k, table);
    ThreadsSame(s, s');
    forall i, j | i in s'.buffers && j in s'.buffers && i != j ensures s'.BuffersApart(i, j) {
      assert s.BuffersApart(i, j);
    }
    BufferGoneOwners(s, k, table);
    BufferGoneShown(s, k, table);
    SpaceHolds(s');
  }

  lemma BufferGoneOwners(s: Space, k: Key, table: Table)
    requires s.Has(Owners) && k in s.buffers
    ensures WithoutBuffer(s, k, table).Has(Owners)
  {
    var s' := WithoutBuffer(s, k, table);
    BufferFrames(s, k);
    forall o, f: nat ensures s'.Owns(o, f) <==> s.Owns(o, f) && f !in FramesOf(s.buffers[k].pages) {
      if s'.Owns(o, f) { assert s.Owns(o, f); }
    }
    OwnersRemoved(s, s', FramesOf(s.buffers[k].pages));
  }

  lemma BufferGoneShown(s: Space, k: Key, table: Table)
    requires s.Has(Owners) && s.Has(Windows) && s.Has(Shown) && k in s.buffers
    requires Unmaps(s.table, table, s.buffers[k].Loc(), |s.buffers[k].pages|)
    ensures WithoutBuffer(s, k, table).Has(Shown)
  {
    var s', b := WithoutBuffer(s, k, table), s.buffers[k];
    forall o, v: nat, f: nat
      ensures s'.ShownBy(o, v, f) <==> s.ShownBy(o, v, f) && !(b.Loc() <= v < b.Loc() + |b.pages|)
    {
      if s.ShownBy(o, v, f) && b.Loc() <= v < b.Loc() + |b.pages| {
        var i := v - b.Loc();
        OneShown(s, o, f, Pixels(k, i), b.pages[|b.pages| - 1 - i].frame, v);
      }
    }
    ShownRemoved(s, s', b.Loc(), |b.pages|);
  }

  // ---- Exchanging two framebuffers ----

  /** reassign_vaddr: the ranges at consecutive pages that end below `top`. */
  function Rebased(ranges: seq<Range>, top: nat): (r: seq<Range>)
    requires |ranges| <= top
    ensures |r| == |ranges| && Chain(r, top - |ranges|)
    ensures forall i | 0 <= i < |r| :: r[i].frame == ranges[i].frame
  {
    seq(|ranges|, i requires 0 <= i < |ranges| => Range(top - 1 - i, ranges[i].frame, 1))
  }

  function MovedTo(b: Buffer, loc: nat): Buffer {
    b.(pages := Rebased(b.pages, loc + |b.pages|))
  }

  function Swapped(s: Space, k: Key, l: Key, table: Table): Space
    requires k in s.buffers && l in s.buffers
  {
    var a, b := s.buffers[k], s.buffers[l];
    s.(buffers := s.buffers[k := MovedTo(a, b.Loc())][l := MovedTo(b, a.Loc())], table := table)
  }

  /** The table after the four steps of framebuffer_swap. */
  ghost predicate Exchanged(t: Table, t': Table, a: Buffer, b: Buffer) {
    forall v: nat, f: nat {:trigger Entry(t', v, f)} ::
      Entry(t', v, f) <==>
        || (Entry(t, v, f) && !(a.Loc() <= v < a.Loc() + |a.pages|) && !(b.Loc() <= v < b.Loc() + |b.pages|))
        || PageAt(MovedTo(a, b.Loc()).pages, b.Loc(), v, f)
        || PageAt(MovedTo(b, a.Loc()).pages, a.Loc(), v, f)
  }

  /** Taking the two spans off the table and mapping the buffers crosswise exchanges them. */
  lemma ExchangedInSteps(t0: Table, t1: Table, t2: Table, t3: Table, t4: Table, a: Buffer, b: Buffer)
    requires Unmaps(t0, t1, a.Loc(), |a.pages|) && Unmaps(t1, t2, b.Loc(), |b.pages|)
    requires Maps(t2, t3, MovedTo(a, b.Loc()).pages, b.Loc()) && Maps(t3, t4, MovedTo(b, a.Loc()).pages, a.Loc())
    ensures Exchanged(t0, t4, a, b)
  {
    forall v: nat, f: nat
      ensures Entry(t4, v, f) <==>
                || (Entry(t0, v, f) && !(a.Loc() <= v < a.Loc() + |a.pages|) && !(b.Loc() <= v < b.Loc() + |b.pages|))
                || PageAt(MovedTo(a, b.Loc()).pages, b.Loc(), v, f)
                || PageAt(MovedTo(b, a.Loc()).pages, a.Loc(), v, f)
    {
      assert Entry(t3, v, f) <==> Entry(t2, v, f) || PageAt(MovedTo(a, b.Loc()).pages, b.Loc(), v, f);
      assert Entry(t2, v, f) <==> Entry(t1, v, f) && !(b.Loc() <= v < b.Loc() + |b.pages|);
      assert Entry(t1, v, f) <==> Entry(t0, v, f) && !(a.Loc() <= v < a.Loc() + |a.pages|);
    }
  }

  /** Two different buffers of one size. */
  ghost predicate Pair(s: Space, k: Key, l: Key) {
    k in s.buffers && l in s.buffers && k != l && s.buffers[k].numPages == s.buffers[l].numPages
  }

  lemma SwappedHolds(s: Space, k: Key, l: Key, table: Table)
    requires s.Holds() && Pair(s, k, l) && Exchanged(s.table, table, s.buffers[k], s.buffers[l])
    ensures Swapped(s, k, l, table).Holds()
  {
    assert s.Has(Shapes) && s.Has(Windows) && s.Has(Owners) && s.Has(Shown);
    var s' := Swapped(s, k, l, table);
    ThreadsSame(s, s');
    SwappedWindows(s, k, l, table);
    forall o, f: nat ensures s'.Owns(o, f) <==> s.Owns(o, f) {
      SwappedOwns(s, k, l, table, o, f);
    }
    OwnersRemoved(s, s', {});
    SwappedShown(s, k, l, table);
    SpaceHolds(s');
  }

  lemma MovedLoc(b: Buffer, loc: nat)
    requires b.Covered() && FB_START < loc && loc + b.numPages <= USER_START
    ensures MovedTo(b, loc).Covered() && MovedTo(b, loc).Loc() == loc && MovedTo(b, loc).numPages == b.numPages
  {
  }

  lemma SwappedWindows(s: Space, k: Key, l: Key, table: Table)
    requires s.Has(Windows) && Pair(s, k, l)
    ensures Swapped(s, k, l, table).Has(Windows)
  {
    var s', a, b := Swapped(s, k, l, table), s.buffers[k], s.buffers[l];
    MovedLoc(a, b.Loc());
    MovedLoc(b, a.Loc());
    forall i, j | i in s'.buffers && j in s'.buffers && i != j ensures s'.BuffersApart(i, j) {
      assert s.BuffersApart(Other(k, l, i), Other(k, l, j));
    }
  }

  /** The buffer whose place `x` has after the exchange. */
  function Other(k: Key, l: Key, x: Key): Key {
    if x == k then l else if x == l then k else x
  }

  /** Only a buffer's own pages show in its span. */
  lemma ShownInSpan(s: Space, k: Key, o: Owner, v: nat, f: nat)
    requires s.Has(Owners) && s.Has(Shown) && k in s.buffers && s.ShownBy(o, v, f)
    ensures o.Pixels? && o.buffer == k <==> s.buffers[k].Loc() <= v < s.buffers[k].Loc() + |s.buffers[k].pages|
  {
    var b := s.buffers[k];
    if b.Loc() <= v < b.Loc() + |b.pages| {
      OneShown(s, o, f, Pixels(k, v - b.Loc()), b.pages[|b.pages| - 1 - (v - b.Loc())].frame, v);
    }
  }

  /** The same holders have the same pages. */
  lemma SwappedOwns(s: Space, k: Key, l: Key, table: Table, o: Owner, f: nat)
    requires Pair(s, k, l)
    ensures Swapped(s, k, l, table).Owns(o, f) <==> s.Owns(o, f)
  {
    if o.Pixels? && o.buffer == k {
      MovedFrames(s.buffers[k], s.buffers[l].Loc(), o.offset, f);
    } else if o.Pixels? && o.buffer == l {
      MovedFrames(s.buffers[l], s.buffers[k].Loc(), o.offset, f);
    }
  }

  lemma MovedFrames(b: Buffer, loc: nat, i: nat, f: nat)
    ensures var b' := MovedTo(b, loc);
            && |b'.pages| == |b.pages|
            && (i < |b.pages| ==> b'.pages[|b.pages| - 1 - i].frame == b.pages[|b.pages| - 1 - i].frame)
            && (i < |b.pages| && b.pages[|b.pages| - 1 - i].frame == f <==> PageAt(b'.pages, loc, loc + i, f))
  {
  }

  lemma SwappedShownBy(s: Space, k: Key, l: Key, table: Table, o: Owner, v: nat, f: nat)
    requires s.Has(Windows) && Pair(s, k, l)
    ensures var s', a, b := Swapped(s, k, l, table), s.buffers[k], s.buffers[l];
            s'.ShownBy(o, v, f) <==>
              if o.Pixels? && o.buffer == k then
                v == b.Loc() + o.offset && PageAt(MovedTo(a, b.Loc()).pages, b.Loc(), v, f)
              else if o.Pixels? && o.buffer == l then
                v == a.Loc() + o.offset && PageAt(MovedTo(b, a.Loc()).pages, a.Loc(), v, f)
              else s.ShownBy(o, v, f)
  {
    if o.Pixels? && o.buffer == k {
      MovedShownBy(s, k, s.buffers[l].Loc(), Swapped(s, k, l, table), o.offset, v, f);
    } else if o.Pixels? && o.buffer == l {
      MovedShownBy(s, l, s.buffers[k].Loc(), Swapped(s, k, l, table), o.offset, v, f);
    }
  }

  lemma MovedShownBy(s: Space, k: Key, loc: nat, s': Space, i: nat, v: nat, f: nat)
    requires k in s.buffers && s.buffers[k].Covered() && FB_START < loc && loc + s.buffers[k].numPages <= USER_START
    requires k in s'.buffers && s'.buffers[k] == MovedTo(s.buffers[k], loc)
    ensures s'.ShownBy(Pixels(k, i), v, f) <==> v == loc + i && PageAt(MovedTo(s.buffers[k], loc).pages, loc, v, f)
  {
    MovedLoc(s.buffers[k], loc);
  }

  lemma SwappedShown(s: Space, k: Key, l: Key, table: Table)
    requires s.Holds() && Pair(s, k, l) && Exchanged(s.table, table, s.buffers[k], s.buffers[l])
    ensures Swapped(s, k, l, table).Has(Shown)
  {
    assert s.Has(Owners) && s.Has(Windows) && s.Has(Shown);
    var s' := Swapped(s, k, l, table);
    forall v: nat, f: nat ensures Entry(table, v, f) ==> s'.Due(v, f) {
      if Entry(table, v, f) { EntrySwapped(s, k, l, table, v, f); }
    }
    forall v: nat, f: nat ensures s'.Due(v, f) ==> Entry(table, v, f) {
      if o :| s'.ShownBy(o, v, f) {
        SwappedShownBy(s, k, l, table, o, v, f);
        if !(o.Pixels? && (o.buffer == k || o.buffer == l)) {
          ShownInSpan(s, k, o, v, f);
          ShownInSpan(s, l, o, v, f);
          DueIsMapped(s, o, f, v);
        }
      }
    }
  }

  lemma EntrySwapped(s: Space, k: Key, l: Key, table: Table, v: nat, f: nat)
    requires s.Holds() && Pair(s, k, l) && Exchanged(s.table, table, s.buffers[k], s.buffers[l])
    requires Entry(table, v, f)
    ensures Swapped(s, k, l, table).Due(v, f)
  {
    assert s.Has(Owners) && s.Has(Windows) && s.Has(Shown);
    var s', a, b := Swapped(s, k, l, table), s.buffers[k], s.buffers[l];
    if PageAt(MovedTo(a, b.Loc()).pages, b.Loc(), v, f) {
      SwappedShownBy(s, k, l, table, Pixels(k, v - b.Loc()), v, f);
    } else if PageAt(MovedTo(b, a.Loc()).pages, a.Loc(), v, f) {
      SwappedShownBy(s, k, l, table, Pixels(l, v - a.Loc()), v, f);
    } else if v != 0 || f != 0 {
      var o :| s.ShownBy(o, v, f);
      ShownInSpan(s, k, o, v, f);
      ShownInSpan(s, l, o, v, f);
      SwappedShownBy(s, k, l, table, o, v, f);
    }
  }

  /** Page by page, each buffer's contents are where the other's were. */
  lemma SwapExchanges(s: Space, k: Key, l: Key, table: Table, i: nat)
    requires s.Holds() && Pair(s, k, l) && Exchanged(s.table, table, s.buffers[k], s.buffers[l])
    requires i < s.buffers[k].numPages - 1
    ensures var a, b := s.buffers[k].Loc() + i, s.buffers[l].Loc() + i;
            && a in s.table && b in s.table && a in table && b in table
            && table[b] == s.table[a] && table[a] == s.table[b]
  {
    assert s.Has(Windows);
    SwapMoves(s, k, l, table, i);
    SwapMoves(s, l, k, table, i);
  }

  lemma SwapMoves(s: Space, k: Key, l: Key, table: Table, i: nat)
    requires s.Holds() && Pair(s, k, l) && i < |s.buffers[k].pages|
    requires Exchanged(s.table, table, s.buffers[k], s.buffers[l])
             || Exchanged(s.table, table, s.buffers[l], s.buffers[k])
    ensures s.buffers[k].Loc() + i in s.table
    ensures Entry(table, s.buffers[l].Loc() + i, s.table[s.buffers[k].Loc() + i])
  {
    assert s.Has(Shown);
    var a := s.buffers[k];
    var f := a.pages[|a.pages| - 1 - i].frame;
    DueIsMapped(s, Pixels(k, i), f, a.Loc() + i);
    MovedFrames(a, s.buffers[l].Loc(), i, f);
  }

  /** No other page moves. */
  lemma SwapLeavesTheRest(s: Space, k: Key, l: Key, table: Table, v: nat)
    requires s.Holds() && Pair(s, k, l) && Exchanged(s.table, table, s.buffers[k], s.buffers[l])
    requires forall m | m in {k, l} :: !(s.buffers[m].Loc() <= v < s.buffers[m].Loc() + s.buffers[m].numPages - 1)
    ensures v in table <==> v in s.table
    ensures v in table ==> table[v] == s.table[v]
  {
    assert s.Has(Windows);
    assert k in {k, l} && l in {k, l};
    if v in table { assert Entry(table, v, table[v]); }
    if v in s.table { assert Entry(table, v, s.table[v]); }
  }

  /** Exchanging twice gives back the whole state. */
  lemma SwapTwice(s: Space, k: Key, l: Key, t1: Table, t2: Table)
    requires s.Holds() && Pair(s, k, l) && Exchanged(s.table, t1, s.buffers[k], s.buffers[l])
    requires var s1 := Swapped(s, k, l, t1); Pair(s1, k, l) && Exchanged(t1, t2, s1.buffers[k], s1.buffers[l])
    ensures Swapped(Swapped(s, k, l, t1), k, l, t2) == s
  {
    assert s.Has(Windows);
    var s1 := Swapped(s, k, l, t1);
    var s2 := Swapped(s1, k, l, t2);
    SwappedHolds(s, k, l, t1);
    SwappedHolds(s1, k, l, t2);
    MovedBack(s.buffers[k], s.buffers[l].Loc());
    MovedBack(s.buffers[l], s.buffers[k].Loc());
    assert s2.buffers == s.buffers;
    assert s.Has(Shown) && s2.Has(Shown);
    TableIsDetermined(s, s2);
  }

  lemma MovedBack(b: Buffer, loc: nat)
    requires b.Covered() && FB_START < loc && loc + b.numPages <= USER_START
    ensures MovedTo(b, loc).Loc() == loc && MovedTo(MovedTo(b, loc), b.Loc()) == b
  {
    MovedLoc(b, loc);
  }

  // ---- The address ranges of the framebuffer allocator ----

  type Buffers = map<Key, Buffer>

  const FB_TOTAL: nat := 400 // FRAMEBUFFER_HEAP_SIZE
  const FB_LIMIT: nat := 286 // where the waste of the allocator starts

  /** The block of the framebuffer allocator that is the buffer's own range. */
  function Block(b: Buffer): int {
    b.pixels - FB_START - 1
  }

  function Partner(k: Key): Key {
    Key(k.window, if k.slot == 0 then 1 else 0)
  }

  /** The buffer is mapped at its own range, as when it was made. */
  predicate AtHome(b: Buffer) {
    b.Loc() == b.pixels
  }

  /** The buffer is at home, or has changed places with the other buffer of its window. */
  ghost predicate Settled(bs: Buffers, k: Key)
    requires k in bs
  {
    || AtHome(bs[k])
    || (&& Partner(k) in bs
        && bs[k].Loc() == bs[Partner(k)].pixels
        && bs[Partner(k)].Loc() == bs[k].pixels)
  }

  ghost predicate OwnsBlock(bs: Buffers, reserved: Tile, k: Key)
    requires k in bs
  {
    var b := bs[k];
    && k.slot < 2
    && 0 <= Block(b) && Block(b) in reserved && Block(b) + b.numPages <= FB_LIMIT
    && b.numPages <= Pow2(reserved[Block(b)])
    && (Partner(k) in bs ==> bs[Partner(k)].numPages == b.numPages)
  }

  ghost predicate BlocksDiffer(bs: Buffers, k: Key, l: Key)
    requires k in bs && l in bs
  {
    bs[k].pixels != bs[l].pixels
  }

  ghost predicate Backed(bs: Buffers, i: nat) {
    exists k :: k in bs && Block(bs[k]) == i
  }

  /** The reserved ranges are the buffers' own; buffers of windows other than `open` are settled. */
  ghost predicate Placed(bs: Buffers, reserved: Tile, open: int) {
    forall use {:trigger PlacedIf(use, bs, reserved, open)} :: PlacedIf(use, bs, reserved, open)
  }

  ghost predicate PlacedIf(use: bool, bs: Buffers, reserved: Tile, open: int) {
    use ==>
    && (forall k {:trigger OwnsBlock(bs, reserved, k)} | k in bs :: OwnsBlock(bs, reserved, k))
    && (forall k, l {:trigger BlocksDiffer(bs, k, l)} | k in bs && l in bs && k != l :: BlocksDiffer(bs, k, l))
    && (forall i {:trigger Backed(bs, i)} | i in reserved :: Backed(bs, i))
    && (forall k {:trigger Settled(bs, k)} | k in bs && k.window != open :: Settled(bs, k))
  }

  const NONE: int := -1 // no window is open

  /** A block that the allocator hands out next to the reserved ones holds no buffer now. */
  lemma NewBlockIsFree(s: Space, reserved: Tile, b: nat, n: nat)
    requires Placed(s.buffers, reserved, NONE) && n <= Pow2(OrderFor(n))
    requires forall i | i in reserved :: i + Pow2(reserved[i]) <= b || b + Pow2(OrderFor(n)) <= i
    ensures SpanFree(s, FB_START + 1 + b, n)
  {
    assert PlacedIf(true, s.buffers, reserved, NONE);
    forall k | k in s.buffers
      ensures FB_START + 1 + b + n <= s.buffers[k].Loc()
              || s.buffers[k].Loc() + s.buffers[k].numPages <= FB_START + 1 + b
    {
      assert OwnsBlock(s.buffers, reserved, k) && Settled(s.buffers, k);
      if !AtHome(s.buffers[k]) {
        assert OwnsBlock(s.buffers, reserved, Partner(k));
      }
    }
  }

  lemma NewBufferPlaced(bs: Buffers, reserved: Tile, k: Key, b: Buffer, order: nat)
    requires Placed(bs, reserved, NONE) && k !in bs && k.slot < 2
    requires AtHome(b) && 0 <= Block(b) && Block(b) !in reserved && Block(b) + b.numPages <= FB_LIMIT
    requires b.numPages <= Pow2(order)
    requires Partner(k) in bs ==> bs[Partner(k)].numPages == b.numPages
    ensures Placed(bs[k := b], reserved[Block(b) := order], NONE)
  {
    assert PlacedIf(true, bs, reserved, NONE);
    var bs', reserved' := bs[k := b], reserved[Block(b) := order];
    forall l | l in bs' ensures OwnsBlock(bs', reserved', l) && Settled(bs', l) {
      if l != k { assert OwnsBlock(bs, reserved, l) && Settled(bs, l); }
    }
    forall l, m | l in bs' && m in bs' && l != m ensures BlocksDiffer(bs', l, m) {
      if l != k && m != k { assert BlocksDiffer(bs, l, m); }
      if l != k { assert OwnsBlock(bs, reserved, l); }
      if m != k { assert OwnsBlock(bs, reserved, m); }
    }
    forall i | i in reserved' ensures Backed(bs', i) {
      if i == Block(b) {
        assert k in bs' && Block(bs'[k]) == i;
      } else {
        assert Backed(bs, i);
        var l :| l in bs && Block(bs[l]) == i;
        assert l in bs' && Block(bs'[l]) == i;
      }
    }
  }

  lemma BufferGonePlaced(bs: Buffers, reserved: Tile, open: int, k: Key)
    requires Placed(bs, reserved, open) && k in bs && (open == NONE || open == k.window)
    ensures Block(bs[k]) in reserved
    ensures Placed(bs - {k}, reserved - {Block(bs[k])}, k.window)
  {
    assert PlacedIf(true, bs, reserved, open);
    var bs', reserved' := bs - {k}, reserved - {Block(bs[k])};
    assert OwnsBlock(bs, reserved, k);
    forall l | l in bs' ensures OwnsBlock(bs', reserved', l) {
      assert OwnsBlock(bs, reserved, l) && BlocksDiffer(bs, k, l);
    }
    forall l | l in bs' && l.window != k.window ensures Settled(bs', l) {
      assert Settled(bs, l);
    }
    forall l, m | l in bs' && m in bs' && l != m ensures BlocksDiffer(bs', l, m) {
      assert BlocksDiffer(bs, l, m);
    }
    forall i | i in reserved' ensures Backed(bs', i) {
      assert Backed(bs, i);
      var l :| l in bs && Block(bs[l]) == i;
      assert l in bs';
    }
  }

  lemma WindowGonePlaced(bs: Buffers, reserved: Tile, w: nat)
    requires Placed(bs, reserved, w) && forall k | k in bs :: k.window != w
    ensures Placed(bs, reserved, NONE)
  {
    assert PlacedIf(true, bs, reserved, w);
    forall k | k in bs ensures Settled(bs, k) {
      assert k.window != w;
    }
  }

  lemma PartnersPair(s: Space, reserved: Tile, open: int, k: Key)
    requires Placed(s.buffers, reserved, open) && k in s.buffers && Partner(k) in s.buffers
    ensures Pair(s, k, Partner(k)) && Partner(Partner(k)) == k
  {
    assert PlacedIf(true, s.buffers, reserved, open);
    assert OwnsBlock(s.buffers, reserved, k);
  }

  /** What an exchange does to a buffer, pages aside. */
  ghost predicate PlaceExchanged(s: Space, s': Space, k: Key, l: Key, m: Key)
    requires m in s.buffers && m in s'.buffers && k in s.buffers && l in s.buffers
  {
    && s'.buffers[m].numPages == s.buffers[m].numPages && s'.buffers[m].pixels == s.buffers[m].pixels
    && s'.buffers[m].Loc() == s.buffers[Other(k, l, m)].Loc()
  }

  ghost predicate PlacesExchanged(s: Space, s': Space, k: Key, l: Key) {
    && k in s.buffers && l in s.buffers && s'.buffers.Keys == s.buffers.Keys
    && forall m {:trigger PlaceExchanged(s, s', k, l, m)} | m in s.buffers :: PlaceExchanged(s, s', k, l, m)
  }

  lemma SwappedPlaces(s: Space, k: Key, l: Key, table: Table)
    requires s.Has(Windows) && Pair(s, k, l)
    ensures PlacesExchanged(s, Swapped(s, k, l, table), k, l)
  {
    var a, b, s' := s.buffers[k], s.buffers[l], Swapped(s, k, l, table);
    MovedLoc(a, b.Loc());
    MovedLoc(b, a.Loc());
    assert s'.buffers[k] == MovedTo(a, b.Loc()) && s'.buffers[l] == MovedTo(b, a.Loc());
    forall m | m in s.buffers ensures PlaceExchanged(s, s', k, l, m) {
      if m != k && m != l {
        assert s'.buffers[m] == s.buffers[m];
      }
    }
  }

  lemma SwappedPlaced(s: Space, s': Space, reserved: Tile, k: Key)
    requires Placed(s.buffers, reserved, NONE) && Pair(s, k, Partner(k)) && Partner(Partner(k)) == k
    requires PlacesExchanged(s, s', k, Partner(k))
    ensures Placed(s'.buffers, reserved, NONE)
  {
    assert PlacedIf(true, s.buffers, reserved, NONE);
    forall m | m in s'.buffers ensures OwnsBlock(s'.buffers, reserved, m) && Settled(s'.buffers, m) {
      SwappedSettled(s, s', reserved, k, m);
    }
    forall m, n | m in s'.buffers && n in s'.buffers && m != n ensures BlocksDiffer(s'.buffers, m, n) {
      assert BlocksDiffer(s.buffers, m, n);
      assert PlaceExchanged(s, s', k, Partner(k), m) && PlaceExchanged(s, s', k, Partner(k), n);
    }
    forall i | i in reserved ensures Backed(s'.buffers, i) {
      assert Backed(s.buffers, i);
      var m :| m in s.buffers && Block(s.buffers[m]) == i;
      assert PlaceExchanged(s, s', k, Partner(k), m);
      assert m in s'.buffers && Block(s'.buffers[m]) == i;
    }
  }

  lemma SwappedSettled(s: Space, s': Space, reserved: Tile, k: Key, m: Key)
    requires Placed(s.buffers, reserved, NONE) && Pair(s, k, Partner(k)) && Partner(Partner(k)) == k
    requires PlacesExchanged(s, s', k, Partner(k)) && m in s.buffers
    ensures OwnsBlock(s'.buffers, reserved, m) && Settled(s'.buffers, m)
  {
    assert PlacedIf(true, s.buffers, reserved, NONE);
    var l, p := Partner(k), Partner(m);
    assert Settled(s.buffers, m) && OwnsBlock(s.buffers, reserved, m);
    assert PlaceExchanged(s, s', k, l, m);
    if p in s.buffers { assert PlaceExchanged(s, s', k, l, p); }
    if m == k || m == l {
      assert BlocksDiffer(s.buffers, k, l) && Settled(s.buffers, k) && Settled(s.buffers, l);
    } else if p in s.buffers {
      assert OwnsBlock(s.buffers, reserved, p) && OwnsBlock(s.buffers, reserved, k);
    }
  }

  /**
   * Freeing one framebuffer alone leaves its range free of pages exactly when it is at
   * home: framebuffer_free gives the range at `pixels` back to the allocator, and
   * unmaps the pages where they are. After an exchange those are two places, and the
   * next framebuffer on that range would find it mapped.
   */
  lemma FreedAloneLeavesItsRangeClear(s: Space, reserved: Tile, k: Key, table: Table)
    requires s.Holds() && Placed(s.buffers, reserved, NONE) && k in s.buffers
    requires Unmaps(s.table, table, s.buffers[k].Loc(), |s.buffers[k].pages|)
    ensures AtHome(s.buffers[k]) <==> Clear(table, s.buffers[k].pixels, |s.buffers[k].pages|)
  {
    assert PlacedIf(true, s.buffers, reserved, NONE);
    assert s.Has(Windows) && Settled(s.buffers, k);
    var b, s' := s.buffers[k], WithoutBuffer(s, k, table);
    BufferGoneHolds(s, k, table);
    if AtHome(b) {
      forall v: nat | b.pixels <= v < b.pixels + b.numPages - 1 ensures v !in table {
        if v in table { assert Entry(table, v, table[v]); }
      }
    } else {
      assert s.Has(Windows);
      MappedInBuffer(s', Partner(k), b.pixels);
    }
  }
}
