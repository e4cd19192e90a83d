// The MMU table: virtual page to physical page. The operations abort, here by
// answering false, when they meet an entry they do not expect.
module Mmu {
  import opened Frames

  type Table = map<nat, nat>

  predicate Entry(table: Table, v: nat, f: nat) {
    v in table && table[v] == f
  }

  ghost predicate Clear(table: Table, vaddr: nat, len: nat) {
    forall v: nat | vaddr <= v < vaddr + len :: v !in table
  }

  ghost predicate Full(table: Table, vaddr: nat, len: nat) {
    forall v: nat | vaddr <= v < vaddr + len :: v in table
  }

  /** The table with `len` pages from `vaddr` on mapped to those from `frame` on. */
  ghost predicate MapsSegment(before: Table, after: Table, vaddr: nat, frame: nat, len: nat) {
    forall v: nat, f: nat {:trigger Entry(after, v, f)} ::
      Entry(after, v, f) <==> Entry(before, v, f) || (vaddr <= v < vaddr + len && f == frame + (v - vaddr))
  }

  /** The table with a chain of ranges from `start` mapped. */
  ghost predicate Maps(before: Table, after: Table, ranges: seq<Range>, start: nat) {
    forall v: nat, f: nat {:trigger Entry(after, v, f)} ::
      Entry(after, v, f) <==> Entry(before, v, f) || PageAt(ranges, start, v, f)
  }

  /** The table without the pages [vaddr, vaddr + len). */
  ghost predicate Unmaps(before: Table, after: Table, vaddr: nat, len: nat) {
    forall v: nat, f: nat {:trigger Entry(after, v, f)} ::
      Entry(after, v, f) <==> Entry(before, v, f) && !(vaddr <= v < vaddr + len)
  }

  lemma SameKeys(before: Table, after: Table, v: nat)
    requires forall f: nat {:trigger Entry(after, v, f)} :: Entry(after, v, f) <==> Entry(before, v, f)
    ensures v in after <==> v in before
  {
    if v in before { assert Entry(after, v, before[v]); }
    if v in after { assert Entry(after, v, after[v]); }
  }

  lemma OneEntry(table: Table, v: nat, f: nat)
    ensures v !in table ==> MapsSegment(table, table[v := f], v, f, 1)
    ensures Unmaps(table, table - {v}, v, 1)
  {
  }

  class Mmu {
    var table: Table

    constructor ()
      ensures table == map[]
    {
      table := map[];
    }

    /** why_mmu_hal_map_region */
    method MapRegion(vaddr: nat, frame: nat, len: nat) returns (ok: bool)
      modifies this
      ensures ok <==> Clear(old(table), vaddr, len)
      ensures ok ==> MapsSegment(old(table), table, vaddr, frame, len)
    {
      var i := 0;
      while i < len
        invariant 0 <= i <= len && Clear(old(table), vaddr, i)
        invariant MapsSegment(old(table), table, vaddr, frame, i)
      {
        SameKeys(old(table), table, vaddr + i);
        if vaddr + i in table {
          return false;
        }
        OneEntry(table, vaddr + i, frame + i);
        table := table[vaddr + i := frame + i];
        i := i + 1;
      }
      ok := true;
    }

    /** why_mmu_hal_unmap_region */
    method UnmapRegion(vaddr: nat, len: nat) returns (ok: bool)
      modifies this
      ensures ok <==> Full(old(table), vaddr, len)
      ensures ok ==> Unmaps(old(table), table, vaddr, len)
    {
      var i := 0;
      while i < len
        invariant 0 <= i <= len && Full(old(table), vaddr, i)
        invariant Unmaps(old(table), table, vaddr, i)
      {
        SameKeys(old(table), table, vaddr + i);
        if vaddr + i !in table {
          return false;
        }
        OneEntry(table, vaddr + i, 0);
        table := table - {vaddr + i};
        i := i + 1;
      }
      ok := true;
    }

    /** map_regions, and the loop of remap_task: maps a whole list of ranges, or aborts. */
    method MapRegions(ranges: seq<Range>, ghost start: nat) returns (ok: bool)
      requires Chain(ranges, start)
      modifies this
      ensures ok <==> Clear(old(table), start, |ranges|)
      ensures ok ==> Maps(old(table), table, ranges, start)
    {
      ghost var top := start + |ranges|;
      var i := 0;
      while i < |ranges|
        invariant 0 <= i <= |ranges| && Clear(old(table), top - i, i)
        invariant forall v: nat, f: nat {:trigger Entry(table, v, f)} ::
                    Entry(table, v, f) <==> Entry(old(table), v, f) || (v >= top - i && PageAt(ranges, start, v, f))
      {
        var r := ranges[i];
        SameKeys(old(table), table, r.vaddr);
        ok := MapRegion(r.vaddr, r.frame, r.size);
        if !ok {
          return;
        }
        i := i + 1;
      }
      ok := true;
    }

    /** framebuffer_unmap_pages, and the loop of unmap_task. */
    method UnmapRegions(ranges: seq<Range>, ghost start: nat) returns (ok: bool)
      requires Chain(ranges, start)
      modifies this
      ensures ok <==> Full(old(table), start, |ranges|)
      ensures ok ==> Unmaps(old(table), table, start, |ranges|)
    {
      ghost var top := start + |ranges|;
      var i := 0;
      while i < |ranges|
        invariant 0 <= i <= |ranges| && Full(old(table), top - i, i)
        invariant Unmaps(old(table), table, top - i, i)
      {
        var r := ranges[i];
        SameKeys(old(table), table, r.vaddr);
        ok := UnmapRegion(r.vaddr, r.size);
        if !ok {
          return;
        }
        i := i + 1;
      }
      ok := true;
    }
  }

  lemma UnmappedIsClear(before: Table, after: Table, vaddr: nat, len: nat)
    requires Unmaps(before, after, vaddr, len)
    ensures Clear(after, vaddr, len)
  {
    forall v: nat | vaddr <= v < vaddr + len ensures v !in after {
      if v in after { assert Entry(after, v, after[v]); }
    }
  }

  /** What another span is like after one has been unmapped. */
  lemma UnmapLeaves(before: Table, after: Table, vaddr: nat, len: nat, other: nat, len': nat)
    requires Unmaps(before, after, vaddr, len)
    ensures Clear(before, other, len') ==> Clear(after, other, len')
    ensures (vaddr + len <= other || other + len' <= vaddr) && Full(before, other, len') ==> Full(after, other, len')
  {
    forall v: nat | other <= v < other + len'
      ensures v !in before ==> v !in after
      ensures v in before && !(vaddr <= v < vaddr + len) ==> v in after
    {
      if v in after { assert Entry(after, v, after[v]); }
      if v in before { assert Entry(before, v, before[v]) && (Entry(after, v, before[v]) || vaddr <= v < vaddr + len); }
    }
  }

  /** What another span is like after a chain has been mapped. */
  lemma MapLeaves(before: Table, after: Table, ranges: seq<Range>, start: nat, other: nat, len: nat)
    requires Maps(before, after, ranges, start) && Clear(before, other, len)
    requires start + |ranges| <= other || other + len <= start
    ensures Clear(after, other, len)
  {
    forall v: nat | other <= v < other + len ensures v !in after {
      if v in after { assert Entry(after, v, after[v]); }
    }
  }
}
