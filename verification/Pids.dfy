// The ring of free process ids. It starts full with its tail on the last entry
// rather than one past it. So a release may write over a free id: the first one
// does unless every id was handed out, and otherwise a later one may.
module Pids {

  const NUM_PIDS: nat := 128
  const MAX_PID: nat := 127

  function Slot(head: nat, d: nat): nat {
    (head + d) % NUM_PIDS
  }

  function Members(queue: seq<int>): set<int> {
    set i | 0 <= i < |queue| :: queue[i]
  }

  ghost predicate Distinct(queue: seq<int>) {
    forall i, j | 0 <= i < j < |queue| :: queue[i] != queue[j]
  }

  lemma MembersAppend(queue: seq<int>, p: int)
    ensures Members(queue + [p]) == Members(queue) + {p}
  {
    assert (queue + [p])[|queue|] == p;
    forall i | 0 <= i < |queue| ensures queue[i] in Members(queue + [p]) {
      assert (queue + [p])[i] == queue[i];
    }
  }

  lemma {:induction false} MembersCount(queue: seq<int>)
    requires Distinct(queue)
    ensures |Members(queue)| == |queue|
  {
    if queue != [] {
      var front, last := queue[..|queue| - 1], queue[|queue| - 1];
      MembersCount(front);
      assert queue == front + [last];
      MembersAppend(front, last);
      forall i | 0 <= i < |front| ensures front[i] != last {
        assert queue[i] == front[i];
      }
      assert last !in Members(front);
    }
  }

  predicate IsPid(p: int, n: nat) {
    1 <= p <= n
  }

  lemma {:induction false} PidsCount(s: set<int>, n: nat)
    requires forall p :: p in s <==> IsPid(p, n)
    ensures |s| == n
  {
    if n > 0 {
      assert IsPid(n, n);
      forall p ensures p in s - {n} <==> IsPid(p, n - 1) {
        assert IsPid(p, n) <==> IsPid(p, n - 1) || p == n;
      }
      PidsCount(s - {n}, n - 1);
    } else {
      forall p ensures p !in s {
        assert !IsPid(p, 0);
      }
      assert s == {};
    }
  }

  /** The ids from `p` to the last one. */
  ghost function IdsFrom(p: nat): seq<int>
    requires p <= NUM_PIDS
  {
    seq(NUM_PIDS - p, k => p + k)
  }

  lemma {:induction false} FirstOfIds(p: nat)
    requires p < NUM_PIDS
    ensures IdsFrom(p) != [] && IdsFrom(p)[0] == p && IdsFrom(p)[1..] == IdsFrom(p + 1)
  {
  }

  function Single(p: int): set<int> {
    if p == -1 then {} else {p}
  }

  /** Every id but 0 is in exactly one place. */
  ghost predicate EachInOnePlace(live: set<int>, queued: set<int>, spare: int, lost: int) {
    && (forall p :: p in live + queued + Single(spare) + Single(lost) <==> IsPid(p, MAX_PID))
    && (spare == -1 || lost == -1)
    && live !! queued && (live + queued) !! Single(spare)
    && (live + queued + Single(spare)) !! Single(lost)
  }

  /** Moves of one id from place to place. */
  lemma Moves(live: set<int>, queued: set<int>, spare: int, lost: int, p: int)
    requires EachInOnePlace(live, queued, spare, lost)
    ensures p in live ==> EachInOnePlace(live - {p}, queued + {p}, spare, lost)
    ensures p in queued ==> EachInOnePlace(live + {p}, queued - {p}, spare, lost)
    ensures p in live && spare == -1 && lost == -1 ==> EachInOnePlace(live - {p}, queued, p, -1)
    ensures p in queued && spare == -1 && lost == -1 ==> EachInOnePlace(live, queued - {p}, -1, p)
    ensures p == spare && p != -1 ==> EachInOnePlace(live + {p}, queued, -1, lost)
    ensures p == spare && p != -1 ==> EachInOnePlace(live, queued, -1, p)
    ensures p in live || p in queued || (p == spare && p != -1) ==> 1 <= p <= MAX_PID
  {
    assert p in live + queued + Single(spare) + Single(lost) ==> IsPid(p, MAX_PID);
    assert !IsPid(-1, MAX_PID);
  }

  datatype Aspect = Entries | Places | Tail | Fresh

  /** The ring and where every id is. */
  datatype Ring = Ring(
    table: seq<int>, head: nat, tail: nat,
    queue: seq<int>, // the free ids the head reaches in order
    spare: int, // a free id on the last slot, behind the head; -1 if none
    lost: int, // an id written over while it was free; -1 if none
    live: set<int>) // the ids handed out, except the reserved 0
  {
    /** The entry `d` past the head. */
    ghost predicate Entry(d: nat) {
      && Slot(head, d) < |table|
      && table[Slot(head, d)] ==
         (if d < |queue| then queue[d] else if Slot(head, d) == MAX_PID then spare else -1)
    }

    ghost predicate Has(a: Aspect) {
      match a
      case Entries =>
        && |table| == NUM_PIDS && head < NUM_PIDS && tail < NUM_PIDS && |queue| <= MAX_PID
        && (forall d {:trigger Entry(d)} | 0 <= d < NUM_PIDS :: Entry(d))
      case Places =>
        Distinct(queue) && EachInOnePlace(live, Members(queue), spare, lost)
      case Tail => // where the tail is, in each phase of the ring's life
        && head < NUM_PIDS
        && if lost != -1 then tail == Slot(head, |queue|)
           else if spare != -1 then head <= tail == head + |queue| <= MAX_PID
           else tail == MAX_PID && (head + |queue| == NUM_PIDS || (head == 0 && queue == []))
      case Fresh => // until an id is released, the last one free is the last one of all
        lost == -1 && spare == -1 && queue != [] ==> queue[|queue| - 1] == MAX_PID
    }

    ghost predicate Holds() {
      forall a {:trigger Has(a)} :: Has(a)
    }
  }

  lemma Holding(r: Ring)
    requires r.Has(Entries) && r.Has(Places) && r.Has(Tail) && r.Has(Fresh)
    ensures r.Holds()
  {
    forall a ensures r.Has(a) {
      match a case Entries => case Places => case Tail => case Fresh =>
    }
  }

  lemma Counts(r: Ring)
    requires r.Has(Places)
    ensures |r.live| + |r.queue| + |Single(r.spare)| + |Single(r.lost)| == MAX_PID
  {
    MembersCount(r.queue);
    PidsCount(r.live + Members(r.queue) + Single(r.spare) + Single(r.lost), MAX_PID);
  }

  lemma ArePids(r: Ring, p: int)
    requires r.Has(Places)
    ensures p in r.live || p in r.queue || (p == r.spare && p != -1) ==> 1 <= p <= MAX_PID
  {
    if p in r.queue { assert p in Members(r.queue); }
    Moves(r.live, Members(r.queue), r.spare, r.lost, p);
  }

  // ---- Allocating ----

  function TakeHead(r: Ring): Ring
    requires r.head < |r.table| == NUM_PIDS
  {
    r.(table := r.table[r.head := -1], head := (r.head + 1) % NUM_PIDS,
       live := r.live + {r.table[r.head]},
       queue := if r.queue != [] then r.queue[1..] else [],
       spare := if r.queue != [] then r.spare else -1)
  }

  lemma HeadEntry(r: Ring)
    requires r.Holds()
    ensures r.head < |r.table| == NUM_PIDS && r.tail < NUM_PIDS
    ensures r.queue != [] ==> r.table[r.head] == r.queue[0] != -1
    ensures r.queue == [] ==> r.table[r.head] == if r.head == MAX_PID then r.spare else -1
  {
    assert r.Has(Entries) && r.Has(Places) && r.Entry(0);
    if r.queue != [] { ArePids(r, r.queue[0]); }
  }

  lemma TakeHeadHolds(r: Ring)
    requires r.Holds() && r.head < |r.table| == NUM_PIDS && r.table[r.head] != -1
    ensures TakeHead(r).Holds()
    ensures 1 <= r.table[r.head] <= MAX_PID && r.table[r.head] !in r.live
  {
    HeadEntry(r);
    assert r.Has(Entries) && r.Has(Places) && r.Has(Tail) && r.Has(Fresh);
    ArePids(r, r.table[r.head]);
    TakePlaces(r);
    TakeEntries(r);
    Holding(TakeHead(r));
  }

  lemma {:induction false} TakeEntries(r: Ring)
    requires r.Has(Entries) && r.Has(Tail) && r.table[r.head] != -1 && (r.spare == -1 || r.lost == -1)
    requires r.table[r.head] == if r.queue != [] then r.queue[0] else if r.head == MAX_PID then r.spare else -1
    ensures TakeHead(r).Has(Entries) && TakeHead(r).Has(Tail)
  {
    forall d | 0 <= d < NUM_PIDS ensures TakeHead(r).Entry(d) {
      TakeEntry(r, d);
    }
  }

  lemma {:induction false} TakeEntry(r: Ring, d: nat)
    requires r.Has(Entries) && r.Has(Tail) && r.table[r.head] != -1 && (r.spare == -1 || r.lost == -1) && d < NUM_PIDS
    requires r.table[r.head] == if r.queue != [] then r.queue[0] else if r.head == MAX_PID then r.spare else -1
    ensures TakeHead(r).Entry(d)
  {
    var r' := TakeHead(r);
    SlotIsTail(r'.head, d);
    if d < MAX_PID {
      assert r.Entry(d + 1);
      SlotIsTail(r.head, d + 1);
      SlotsDiffer(r.head, 0, d + 1);
      assert Slot(r'.head, d) == Slot(r.head, d + 1);
    } else {
      assert Slot(r'.head, d) == r.head;
    }
  }

  lemma TakePlaces(r: Ring)
    requires r.Has(Places) && r.head < |r.table| == NUM_PIDS && r.table[r.head] != -1
    requires r.table[r.head] == if r.queue != [] then r.queue[0] else r.spare
    ensures TakeHead(r).Has(Places) && r.table[r.head] !in r.live
  {
    var pid := r.table[r.head];
    Moves(r.live, Members(r.queue), r.spare, r.lost, pid);
    if r.queue != [] {
      MembersFirst(r.queue);
    }
  }

  lemma MembersFirst(queue: seq<int>)
    requires queue != [] && Distinct(queue)
    ensures Members(queue[1..]) == Members(queue) - {queue[0]} && queue[0] in Members(queue)
    ensures Distinct(queue[1..])
  {
    forall i | 0 < i < |queue| ensures queue[i] in Members(queue[1..]) {
      assert queue[1..][i - 1] == queue[i];
    }
  }

  /** An empty head entry means that at most one user id is not live. */
  lemma NothingAtHead(r: Ring)
    requires r.Holds() && r.head < |r.table| && r.table[r.head] == -1
    ensures |r.live| >= 126
  {
    HeadEntry(r);
    assert r.Has(Places) && r.Has(Tail);
    Counts(r);
  }

  // ---- Releasing ----

  function PutTail(r: Ring, pid: int): Ring
    requires r.tail < |r.table| == NUM_PIDS
  {
    var r1 := r.(table := r.table[r.tail := pid], tail := (r.tail + 1) % NUM_PIDS, live := r.live - {pid});
    if r.lost != -1 then r1.(queue := r.queue + [pid])
    else if r.spare != -1 then
      if r.tail < MAX_PID then r1.(queue := r.queue + [pid])
      else r1.(lost := r.spare, spare := -1, queue := r.queue + [pid])
    else
      if r.queue == [] then r1.(spare := pid)
      else r1.(lost := r.queue[|r.queue| - 1], queue := r.queue[..|r.queue| - 1] + [pid])
  }

  lemma PutTailHolds(r: Ring, pid: int)
    requires r.Holds() && pid in r.live && r.tail < |r.table| == NUM_PIDS
    ensures PutTail(r, pid).Holds()
  {
    PutPlaces(r, pid);
    assert r.Has(Places) && r.Has(Entries) && r.Has(Tail);
    ArePids(r, pid);
    Counts(r);
    assert |r.live| >= 1;
    if r.lost == -1 && r.spare == -1 {
      if r.queue == [] {
        PutAsSpare(r, pid);
      } else {
        ArePids(r, r.queue[|r.queue| - 1]);
        PutOverLast(r, pid);
      }
    } else {
      PutAfterQueue(r, pid);
    }
    Holding(PutTail(r, pid));
  }

  /** A release loses an id exactly when the tail entry still has one, and it loses that one. */
  lemma {:induction false} LosesExactly(r: Ring, pid: int)
    requires r.Holds() && pid in r.live && r.tail < |r.table| == NUM_PIDS
    ensures PutTail(r, pid).lost != r.lost <==> r.table[r.tail] != -1
    ensures PutTail(r, pid).lost != r.lost ==> PutTail(r, pid).lost == r.table[r.tail]
  {
    assert r.Has(Entries) && r.Has(Places) && r.Has(Tail);
    Counts(r);
    assert |r.live| >= 1;
    var d := if r.lost != -1 || r.spare != -1 then |r.queue| else MAX_PID - r.head;
    SlotIsTail(r.head, d);
    assert r.Entry(d);
    if r.queue != [] {
      ArePids(r, r.queue[|r.queue| - 1]);
    }
  }

  lemma PutPlaces(r: Ring, pid: int)
    requires r.Has(Places) && pid in r.live && r.tail < |r.table| == NUM_PIDS
    ensures PutTail(r, pid).Has(Places)
  {
    assert forall q | q in r.queue :: q in Members(r.queue);
    MembersAppend(r.queue, pid);
    Moves(r.live, Members(r.queue), r.spare, r.lost, pid);
    if r.lost == -1 && r.spare == -1 && r.queue != [] {
      var front, last := r.queue[..|r.queue| - 1], r.queue[|r.queue| - 1];
      LastMoves(r, front, last);
      Moves(r.live, Members(front), -1, last, pid);
      MembersAppend(front, pid);
      assert forall q | q in front :: q in r.queue;
    } else if r.lost == -1 && r.spare != -1 && r.tail == MAX_PID {
      Moves(r.live, Members(r.queue), r.spare, -1, r.spare);
      Moves(r.live, Members(r.queue), -1, r.spare, pid);
    }
  }

  lemma LastMoves(r: Ring, front: seq<int>, last: int)
    requires r.Has(Places) && r.queue == front + [last] && r.spare == -1 && r.lost == -1
    ensures EachInOnePlace(r.live, Members(front), -1, last)
  {
    MembersAppend(front, last);
    forall i | 0 <= i < |front| ensures front[i] != last {
      assert r.queue[i] == front[i] && r.queue[|front|] == last;
    }
    Moves(r.live, Members(r.queue), -1, -1, last);
    assert Members(front) == Members(r.queue) - {last};
  }

  lemma SlotIsTail(head: nat, d: nat)
    requires head < NUM_PIDS && d < NUM_PIDS
    ensures Slot(head, d) == if head + d < NUM_PIDS then head + d else head + d - NUM_PIDS
    ensures Slot(head, d + 1) == (Slot(head, d) + 1) % NUM_PIDS
  {
  }

  lemma SlotsDiffer(head: nat, d: nat, e: nat)
    requires head < NUM_PIDS && d < NUM_PIDS && e < NUM_PIDS
    ensures Slot(head, d) == Slot(head, e) <==> d == e
  {
    SlotIsTail(head, d);
    SlotIsTail(head, e);
  }

  /** The tail is just past the queue. */
  lemma PutAfterQueue(r: Ring, pid: int)
    requires r.Has(Entries) && r.Has(Tail) && pid != -1
    requires (r.lost == -1) != (r.spare == -1) && |r.queue| < MAX_PID - 1
    ensures PutTail(r, pid).Has(Entries) && PutTail(r, pid).Has(Tail)
  {
    var r' := PutTail(r, pid);
    SlotIsTail(r.head, |r.queue|);
    assert r.tail == Slot(r.head, |r.queue|);
    forall d | 0 <= d < NUM_PIDS ensures r'.Entry(d) {
      assert r.Entry(d);
      SlotsDiffer(r.head, |r.queue|, d);
    }
  }

  /** Nothing is free: the id goes to the last slot, behind the head. */
  lemma PutAsSpare(r: Ring, pid: int)
    requires r.Has(Entries) && r.Has(Tail) && pid != -1
    requires r.lost == -1 && r.spare == -1 && r.queue == []
    ensures PutTail(r, pid).Has(Entries) && PutTail(r, pid).Has(Tail)
  {
    var r' := PutTail(r, pid);
    forall d | 0 <= d < NUM_PIDS ensures r'.Entry(d) {
      assert r.Entry(d);
    }
  }

  /** The first release in a ring that is not empty: the last free id is written over. */
  lemma PutOverLast(r: Ring, pid: int)
    requires r.Has(Entries) && r.Has(Tail) && pid != -1
    requires r.lost == -1 && r.spare == -1 && r.queue != [] && r.queue[|r.queue| - 1] != -1
    ensures PutTail(r, pid).Has(Entries) && PutTail(r, pid).Has(Tail)
  {
    var r' := PutTail(r, pid);
    forall d | 0 <= d < NUM_PIDS ensures r'.Entry(d) {
      assert r.Entry(d);
    }
  }

  /** As many ids as there are slots but one: the ring of task_init with id 0 reserved. */
  lemma StartHolds(r: Ring)
    requires |r.table| == NUM_PIDS && r.table[0] == -1 && forall i | 0 < i < NUM_PIDS :: r.table[i] == i
    requires r.head == 1 && r.tail == MAX_PID && r.spare == -1 && r.lost == -1 && r.live == {}
    requires |r.queue| == MAX_PID && forall i | 0 <= i < MAX_PID :: r.queue[i] == i + 1
    ensures r.Holds()
  {
    forall d | 0 <= d < NUM_PIDS ensures r.Entry(d) {
      SlotIsTail(1, d);
    }
    forall p ensures p in Members(r.queue) <==> IsPid(p, MAX_PID) {
      if IsPid(p, MAX_PID) { assert r.queue[p - 1] == p; }
    }
    Holding(r);
  }

  class PidRing {
    const table: array<int>
    var head: nat
    var tail: nat
    ghost var queue: seq<int>
    ghost var spare: int
    ghost var lost: int
    ghost var live: set<int>

    ghost function View(): Ring
      reads this, table
    {
      Ring(table[..], head, tail, queue, spare, lost, live)
    }

    ghost predicate Valid()
      reads this, table
    {
      View().Holds()
    }

    /** The table of task_init: every id free, then id 0 taken for the kernel. */
    constructor ()
      ensures Valid() && fresh(table)
      ensures live == {} && lost == spare == -1 && queue == IdsFrom(1)
    {
      table := new int[NUM_PIDS](i => i);
      head, tail := 0, MAX_PID;
      queue := IdsFrom(1);
      spare, lost, live := -1, -1, {};
      new;
      table[head] := -1;
      head := (head + 1) % NUM_PIDS;
      StartHolds(View());
    }

    /** pid_allocate: -1 when the head entry is empty. */
    method Allocate() returns (pid: int)
      requires Valid()
      modifies this, table
      ensures Valid() && lost == old(lost) && tail == old(tail)
      ensures pid == -1 ==> live == old(live) && |live| >= 126
      ensures pid != -1 ==> 1 <= pid <= MAX_PID && pid !in old(live) && live == old(live) + {pid}
      ensures old(queue) != [] ==> pid == old(queue)[0] && queue == old(queue)[1..] && spare == old(spare)
    {
      HeadEntry(View());
      pid := table[head];
      if pid == -1 {
        NothingAtHead(View());
        return;
      }
      TakeHeadHolds(View());
      ghost var after := TakeHead(View());
      table[head] := -1;
      head := (head + 1) % NUM_PIDS;
      queue, spare, live := after.queue, after.spare, after.live;
      assert View() == after;
    }

    /** The entry that the next release writes to. */
    ghost function TailEntry(): int
      requires Valid()
      reads this, table
    {
      assert View().Has(Entries);
      table[tail]
    }

    /** pid_free: puts the id on the tail entry. An id that is there is lost, and is the only one that ever is. */
    method Free(pid: int)
      requires Valid() && (pid >= 0 ==> pid in live)
      modifies this, table
      ensures Valid()
      ensures old(tail) < table.Length == NUM_PIDS
      ensures pid >= 0 ==> live == old(live) - {pid} && View() == PutTail(old(View()), pid)
      ensures pid < 0 ==> View() == old(View())
      ensures lost != old(lost) <==> pid >= 0 && old(TailEntry()) != -1
      ensures lost != old(lost) ==> old(lost) == -1 && lost == old(TailEntry())
    {
      HeadEntry(View());
      if pid < 0 {
        return;
      }
      PutTailHolds(View(), pid);
      LosesExactly(View(), pid);
      ghost var after := PutTail(View(), pid);
      table[tail] := pid;
      tail := (tail + 1) % NUM_PIDS;
      queue, spare, lost, live := after.queue, after.spare, after.lost, after.live;
      assert View() == after;
    }

    /** Every id is live, in the ring, or the one lost, and only one of these; at most one ever is lost. */
    lemma FreeIds(p: int)
      requires Valid() && 1 <= p <= MAX_PID
      ensures p in live || p in queue || p == spare || p == lost
      ensures p in live ==> p !in queue && p != spare && p != lost
      ensures p in queue ==> p != spare && p != lost
      ensures spare == -1 || lost == -1
      ensures forall q | q in live :: 1 <= q <= MAX_PID
      ensures |live| <= MAX_PID
    {
      assert View().Has(Places);
      assert IsPid(p, MAX_PID);
      Counts(View());
      forall q | q in live ensures 1 <= q <= MAX_PID {
        ArePids(View(), q);
      }
      if p in queue { assert p in Members(queue); }
    }

    /**
     * Until an id is released, id 127 is live exactly when all ids are; the first release
     * loses it exactly when they are not.
     */
    lemma FirstReleaseLoses(pid: int)
      requires Valid() && lost == -1 && spare == -1 && pid in live
      requires tail < table.Length == NUM_PIDS
      ensures PutTail(View(), pid).lost == if |live| < MAX_PID then MAX_PID else -1
      ensures MAX_PID in live <==> |live| == MAX_PID
    {
      assert View().Has(Places) && View().Has(Fresh);
      Counts(View());
      if queue != [] {
        assert MAX_PID in Members(queue);
      } else {
        FreeIds(MAX_PID);
      }
    }
  }

  /**
   * A later release may lose an id as well: all ids are handed out and released in
   * order, which loses none, and then two more are taken and released. The first id
   * that was released has sat on the last entry since, and is written over.
   */
  method LaterReleaseLoses() returns (ring: PidRing)
    ensures fresh(ring) && ring.Valid() && ring.lost == 1
  {
    ring := new PidRing();
    TakeAll(ring);
    ReleaseAll(ring);
    Overwrite(ring);
  }

  method Overwrite(ring: PidRing)
    requires ring.Valid() && ring.lost == -1 && ring.spare == 1 && ring.tail == 126
    requires ring.queue == seq(126, k => k + 2)
    modifies ring, ring.table
    ensures ring.Valid() && ring.lost == 1
  {
    var a := ring.Allocate();
    var b := ring.Allocate();
    ring.Free(a);
    ring.Free(b);
  }

  method TakeAll(ring: PidRing)
    requires ring.Valid() && ring.lost == ring.spare == -1 && ring.queue == IdsFrom(1)
    modifies ring, ring.table
    ensures ring.Valid() && ring.lost == ring.spare == -1 && ring.queue == []
  {
    for i := 0 to MAX_PID
      invariant ring.Valid() && ring.lost == ring.spare == -1
      invariant ring.queue == IdsFrom(i + 1)
    {
      FirstOfIds(i + 1);
      var pid := ring.Allocate();
    }
  }

  method ReleaseAll(ring: PidRing)
    requires ring.Valid() && ring.lost == ring.spare == -1 && ring.queue == []
    modifies ring, ring.table
    ensures ring.Valid() && ring.lost == -1 && ring.spare == 1 && ring.tail == 126
    ensures ring.queue == seq(126, k => k + 2)
  {
    assert ring.View().Has(Tail);
    ring.FreeIds(1);
    ring.Free(1);
    for i := 1 to MAX_PID
      invariant ring.Valid() && ring.lost == -1 && ring.spare == 1
      invariant ring.queue == seq(i - 1, k => k + 2) && ring.tail == i - 1
    {
      ring.FreeIds(i + 1);
      ring.Free(i + 1);
    }
  }
}
