// Tasks and memory together: the process table with its thread structures, and the
// heaps of those structures. A structure's heap comes with it, and its pages go back
// when it is torn down, with its last task.
//
// Threads of the kernel task are not part of this: they have the kernel's structure,
// whose heap stays.
module Systems {
  import opened Processes
  import opened Memory
  import AddressSpaces
  import Frames
  import Framebuffers
  import Pids
  import Dyadic

  // ---- Both tables, on values ----

  type Heaps = map<nat, AddressSpaces.Thread>

  /**
   * The structures of the process table have heaps, and no others have. The tasks that
   * can be mapped in are its tasks.
   */
  ghost predicate Linked(s: State, heaps: Heaps, tasks: map<nat, nat>) {
    forall open {:trigger LinkedIf(open, s, heaps, tasks)} :: LinkedIf(open, s, heaps, tasks)
  }

  ghost predicate LinkedIf(open: bool, s: State, heaps: Heaps, tasks: map<nat, nat>) {
    open ==>
    && s.Holds() && !s.kernelShared && heaps.Keys == s.refcount.Keys
    && (forall p | p in s.table && p != KERNEL_PID :: p > 0 && p in tasks && tasks[p] == s.table[p].thread)
    && (forall p | p in tasks :: p in s.table && p != KERNEL_PID)
  }

  const NO_PAGES: AddressSpaces.Thread :=
    AddressSpaces.Thread([], AddressSpaces.USER_START, AddressSpaces.USER_START, 0)

  /** No task has the kernel's structure. */
  lemma NoneOnKernel(s: State, heaps: Heaps, tasks: map<nat, nat>, p: int)
    requires Linked(s, heaps, tasks) && p in s.table && p != KERNEL_PID
    ensures s.table[p].thread != KERNEL_THREAD && s.table[p].thread in s.refcount
  {
    assert LinkedIf(true, s, heaps, tasks);
    assert s.Has(Kernel) && s.Has(Tasks);
    assert p !in Users(s.table, KERNEL_THREAD);
  }

  /** At the start there is the kernel's structure only, and no other task. */
  ghost predicate AtStart(s: State, heaps: Heaps, tasks: map<nat, nat>) {
    && !s.kernelShared && s.table.Keys == {KERNEL_PID} && s.refcount.Keys == {KERNEL_THREAD}
    && heaps.Keys == {KERNEL_THREAD} && tasks == map[]
  }

  lemma LinkedAtStart(s: State, heaps: Heaps, tasks: map<nat, nat>)
    requires s.Holds() && AtStart(s, heaps, tasks)
    ensures Linked(s, heaps, tasks)
  {
  }

  /** A new task on a structure that exists, or on a new one. */
  lemma SpawnLinked(s: State, heaps: Heaps, tasks: map<nat, nat>, pid: nat, thread: nat, parent: int)
    requires Linked(s, heaps, tasks) && pid !in s.table && pid > 0 && thread != KERNEL_THREAD
    requires thread in s.refcount || thread == s.nextThread
    ensures pid !in tasks && (thread in heaps <==> thread in s.refcount)
    ensures Linked(Spawned(s, pid, thread, parent),
                   if thread in heaps then heaps else heaps[thread := NO_PAGES], tasks[pid := thread])
  {
    assert LinkedIf(true, s, heaps, tasks);
    SpawnedHolds(s, pid, thread, parent);
  }

  lemma NextIsNew(s: State)
    requires s.Holds()
    ensures s.nextThread !in s.refcount && s.nextThread != KERNEL_THREAD
  {
    assert s.Has(Structures);
  }

  /** A spawn that fails leaves the heaps as they are. */
  lemma AbandonLinked(s: State, heaps: Heaps, tasks: map<nat, nat>, thread: nat)
    requires Linked(s, heaps, tasks) && thread != KERNEL_THREAD
    requires thread in s.refcount || thread == s.nextThread
    ensures Linked(Abandoned(s, thread), heaps, tasks)
  {
    assert LinkedIf(true, s, heaps, tasks);
    AbandonedHolds(s, thread);
    assert s.Has(Counts);
  }

  /** A reaped task takes its structure along when it is the last on it, and then no task is left there. */
  lemma ReapLinked(s: State, heaps: Heaps, tasks: map<nat, nat>, pid: nat)
    requires Linked(s, heaps, tasks) && pid in s.table && pid != KERNEL_PID
    ensures pid in tasks && tasks[pid] == s.table[pid].thread && tasks[pid] in heaps && tasks[pid] in s.refcount
    ensures tasks[pid] != KERNEL_THREAD
    ensures var t, last := tasks[pid], Users(s.table, tasks[pid]) == {pid};
            && (last <==> s.refcount[t] == 1) && (t !in Reaped(s, pid).refcount <==> last)
            && (last ==> forall p | p in tasks - {pid} :: tasks[p] != t)
            && Linked(Reaped(s, pid), if last then heaps - {t} else heaps, tasks - {pid})
  {
    assert LinkedIf(true, s, heaps, tasks);
    NoneOnKernel(s, heaps, tasks, pid);
    ReapedHolds(s, pid);
    UsersAfterRemove(s.table, pid, tasks[pid]);
    var t := tasks[pid];
    if Users(s.table, t) == {pid} {
      forall p | p in tasks - {pid} ensures tasks[p] != t {
        assert p in s.table && p !in Users(s.table, t);
      }
    }
  }

  // ---- The system ----

  /** What can be done to the system: tasks are spawned and reaped, and memory is used. */
  datatype Deed = NewTask(kind: Kind, parent: int, fault: Fault) | EndTask(pid: nat) | Use(op: Operation)

  datatype Whole = Whole(procs: State, mem: Moment) {
    ghost predicate Good() {
      mem.space.Holds() && Linked(procs, mem.space.threads, mem.space.tasks)
    }
  }

  /** The parts of the system have nothing in common; this never changes. */
  ghost predicate PartsOf(mem: Memory, procs: ProcessManager) {
    && procs !in mem.pool.repr && procs !in mem.vpool.repr
    && procs.pids !in mem.pool.repr && procs.pids !in mem.vpool.repr
    && procs.pids.table !in mem.pool.repr && procs.pids.table !in mem.vpool.repr
  }

  class System {
    const mem: Memory
    const procs: ProcessManager

    ghost predicate MemoryRight()
      reads mem, mem.mmu, mem.pool, mem.pool.repr, mem.vpool, mem.vpool.repr
    {
      forall open {:trigger MemoryRightIf(open)} :: MemoryRightIf(open)
    }

    ghost predicate MemoryRightIf(open: bool)
      reads mem, mem.mmu, mem.pool, mem.pool.repr, mem.vpool, mem.vpool.repr
    {
      open ==> mem.Apart() && mem.Valid()
    }

    ghost predicate TasksRight()
      reads procs, procs.pids, procs.pids.table
    {
      forall open {:trigger TasksRightIf(open)} :: TasksRightIf(open)
    }

    ghost predicate TasksRightIf(open: bool)
      reads procs, procs.pids, procs.pids.table
    {
      open ==> procs.Valid()
    }

    ghost predicate Valid()
      reads mem, mem.mmu, mem.pool, mem.pool.repr, mem.vpool, mem.vpool.repr
      reads procs, procs.pids, procs.pids.table
    {
      PartsOf(mem, procs) && MemoryRight() && TasksRight() && Linked(procs.View(), mem.threads, mem.tasks)
    }

    /** The parts as they are made, before any task. */
    constructor (mem: Memory, procs: ProcessManager)
      requires mem.Apart() && mem.Valid() && procs.Valid() && PartsOf(mem, procs)
      requires AtStart(procs.View(), mem.threads, mem.tasks)
      ensures Valid() && this.mem == mem && this.procs == procs
    {
      this.mem, this.procs := mem, procs;
      new;
      LinkedAtStart(procs.View(), mem.threads, mem.tasks);
    }

    /** A new task in memory, on a structure that exists or on a new one. */
    method Enter(pid: nat, thread: nat, own: bool)
      requires MemoryRight() && pid !in mem.tasks && pid != 0 && thread != KERNEL_THREAD
      requires own <==> thread !in mem.threads
      modifies mem`threads, mem`tasks
      ensures MemoryRight()
      ensures mem.View() == Entered(old(mem.View()), pid, thread)
    {
      assert MemoryRightIf(true);
      if own {
        mem.NewThread(thread);
      }
      mem.AddTask(pid, thread);
    }

    /** A reaped task leaves memory, and takes the heap of its structure along when it is the last on it. */
    method Leave(pid: nat, thread: nat, last: bool)
      requires MemoryRight() && pid in mem.tasks && mem.tasks[pid] == thread && pid != mem.current
      requires thread in mem.threads && thread != KERNEL_THREAD
      requires last ==> forall p | p in mem.tasks - {pid} :: mem.tasks[p] != thread
      modifies mem`threads, mem`tasks, mem.pool.repr
      ensures MemoryRight()
      ensures mem.View() == Left(old(mem.View()), pid, last)
    {
      assert MemoryRightIf(true);
      mem.RemoveTask(pid);
      if last {
        mem.ThreadDestroy(thread);
      }
    }

    method Zeus(kind: Kind, parent: int, fault: Fault) returns (spawned: bool, pid: int)
      requires TasksRight() && parent in procs.table
               && (kind == Kind.Thread ==> procs.table[parent].thread in procs.refcount)
      modifies procs, procs.pids, procs.pids.table
      ensures TasksRight() && (pid == -1 || (1 <= pid <= Pids.MAX_PID && pid !in old(procs.table)))
      ensures procs.View() == if pid == -1 then old(procs.View())
              else Started(old(procs.View()), kind, parent, fault, pid)
      ensures spawned == (pid != -1 && fault == NoFault && kind != UnknownKind)
    {
      assert TasksRightIf(true);
      spawned, pid := procs.Spawn(kind, parent, fault);
    }

    method Hades(pid: nat) returns (orphans: set<int>)
      requires TasksRight() && 1 <= pid <= Pids.MAX_PID
      modifies procs, procs.pids, procs.pids.table
      ensures TasksRight()
      ensures pid in old(procs.table) ==> old(procs.table)[pid].thread in old(procs.refcount)
      ensures procs.View() == if pid in old(procs.table) then Reaped(old(procs.View()), pid) else old(procs.View())
    {
      assert TasksRightIf(true);
      ghost var reaped;
      reaped, orphans := procs.Reap(pid);
    }

    /** zeus spawns a task; a process gets a structure of its own, without pages. */
    method Spawn(kind: Kind, parent: int, fault: Fault) returns (spawned: bool, pid: int)
      requires Valid() && parent in procs.table && (kind == Kind.Thread ==> parent != KERNEL_PID)
      modifies procs, procs.pids, procs.pids.table, mem`threads, mem`tasks
      ensures Valid()
      ensures TaskMade(kind, parent, fault, pid, old(procs.View()), old(mem.View()), procs.View(), mem.View())
    {
      ghost var s, m := procs.View(), mem.View();
      BeforeSpawn(s, m.threads, m.tasks, kind, parent);
      spawned, pid := Zeus(kind, parent, fault);
      AfterSpawn(s, m.threads, m.tasks, kind, parent, fault, pid);
      if spawned {
        Enter(pid, procs.table[pid].thread, kind != Kind.Thread);
      }
    }

    /** hades reaps a task that is not mapped in. With the last task of a structure its pages go back. */
    method Reap(pid: nat) returns (orphans: set<int>)
      requires Valid() && 1 <= pid <= Pids.MAX_PID && pid != mem.current
      modifies procs, procs.pids, procs.pids.table, mem`threads, mem`tasks, mem.pool.repr
      ensures Valid()
      ensures pid !in old(procs.table) ==> procs.View() == old(procs.View()) && mem.View() == old(mem.View())
      ensures pid in old(procs.table) ==> TaskGone(pid, old(procs.View()), old(mem.View()), procs.View(), mem.View())
    {
      ghost var s, m := procs.View(), mem.View();
      var found := pid in procs.table;
      var thread := if found then procs.table[pid].thread else KERNEL_THREAD;
      orphans := Hades(pid);
      if found {
        ReapLinked(s, m.threads, m.tasks, pid);
        Leave(pid, thread, thread !in procs.refcount);
      }
    }

    ghost function Now(): Whole
      reads mem, mem.mmu, mem.pool, mem.vpool, procs
    {
      Whole(procs.View(), mem.Now())
    }

    /** A step of memory that a task or the scheduler asks for. */
    method Use(op: Operation) returns (aborted: bool)
      requires Valid() && IsUse(op) && Allowed(op, mem.threads, mem.tasks, mem.current, mem.buffers)
      modifies mem`threads, mem`tasks, mem`current, mem`running, mem`buffers, mem.mmu, mem.pool.repr, mem.vpool.repr
      ensures !aborted && Valid()
      ensures procs.View() == old(procs.View()) && Step(op, old(mem.Now()), mem.Now())
    {
      ghost var s, m := procs.View(), mem.Now();
      aborted := TakeStep(op);
      UseLinked(s, op, m, mem.Now());
    }

    method TakeStep(op: Operation) returns (aborted: bool)
      requires MemoryRight() && Allowed(op, mem.threads, mem.tasks, mem.current, mem.buffers)
      modifies mem`threads, mem`tasks, mem`current, mem`running, mem`buffers, mem.mmu, mem.pool.repr, mem.vpool.repr
      ensures !aborted && MemoryRight() && Step(op, old(mem.Now()), mem.Now())
    {
      assert MemoryRightIf(true);
      aborted := mem.Take(op);
    }

    lemma NowIsGood()
      requires Valid()
      ensures Now().Good()
    {
      assert MemoryRightIf(true);
    }

    /** One deed, if it can be done; if not, nothing. */
    method Do(deed: Deed) returns (aborted: bool)
      requires Valid()
      modifies procs, procs.pids, procs.pids.table
      modifies mem`threads, mem`tasks, mem`current, mem`running, mem`buffers, mem.mmu, mem.pool.repr, mem.vpool.repr
      ensures !aborted && Valid() && Does(deed, old(Now()), Now())
    {
      aborted := false;
      match deed
      case NewTask(kind, parent, fault) =>
        if parent in procs.table && (kind == Kind.Thread ==> parent != KERNEL_PID) {
          var spawned, pid := Spawn(kind, parent, fault);
        }
      case EndTask(pid) =>
        if 1 <= pid <= Pids.MAX_PID && pid in procs.table && pid != mem.current {
          var orphans := Reap(pid);
        }
      case Use(op) =>
        if IsUse(op) && Allowed(op, mem.threads, mem.tasks, mem.current, mem.buffers) {
          aborted := Use(op);
        }
    }

    /** No run aborts: every deed that can be done is done and has its effect, and every other changes nothing. */
    method Run(script: seq<Deed>) returns (aborted: bool, ghost trace: seq<Whole>)
      requires Valid()
      modifies procs, procs.pids, procs.pids.table
      modifies mem`threads, mem`tasks, mem`current, mem`running, mem`buffers, mem.mmu, mem.pool.repr, mem.vpool.repr
      ensures !aborted && Valid()
      ensures IsHistory(script, trace) && trace[0] == old(Now()) && trace[|script|] == Now()
    {
      aborted := false;
      trace := [Now()];
      NowIsGood();
      for i := 0 to |script|
        invariant !aborted && Valid()
        invariant IsHistory(script[..i], trace) && trace[0] == old(Now()) && trace[i] == Now()
      {
        aborted := Do(script[i]);
        NowIsGood();
        OneMoreDeed(script[..i], trace, script[i], Now());
        assert script[..i] + [script[i]] == script[..i + 1];
        trace := trace + [Now()];
      }
      assert script[..|script|] == script;
    }
  }

  /** memory_init and task_init. */
  method Boot(psram: nat, high: nat) returns (system: System)
    requires AddressSpaces.USER_START <= high && 2 <= psram
    requires Dyadic.Pow2(Dyadic.OrderFor(psram)) < 2 * (psram - 1)
    ensures system.Valid()
  {
    var mem := new Memory(psram, high);
    var procs := new ProcessManager();
    system := new System(mem, procs);
  }

  predicate IsUse(op: Operation) {
    op.Break? || op.Switch? || op.CreateWindow? || op.SwapWindow? || op.CloseWindow?
  }

  /** Memory with a task more, on a heap that exists or on a new one. */
  function Entered(m: AddressSpaces.Space, pid: nat, thread: nat): AddressSpaces.Space {
    m.(threads := if thread in m.threads then m.threads else m.threads[thread := NO_PAGES],
       tasks := m.tasks[pid := thread])
  }

  /** Memory without a task, and without the heap it had if it was the last on it. */
  ghost function Left(m: AddressSpaces.Space, pid: nat, last: bool): AddressSpaces.Space
    requires pid in m.tasks && m.tasks[pid] in m.threads
  {
    var t := m.tasks[pid];
    if last then
      m.(tasks := m.tasks - {pid}, threads := m.threads - {t}, used := m.used - Frames.FramesOf(m.threads[t].pages))
    else m.(tasks := m.tasks - {pid})
  }

  /** The structure that a new task is to have. */
  function StructureFor(s: State, kind: Kind, parent: int): nat
    requires parent in s.table
  {
    if kind == Kind.Thread then s.table[parent].thread else s.nextThread
  }

  lemma BeforeSpawn(s: State, heaps: Heaps, tasks: map<nat, nat>, kind: Kind, parent: int)
    requires Linked(s, heaps, tasks) && parent in s.table && (kind == Kind.Thread ==> parent != KERNEL_PID)
    ensures var t := StructureFor(s, kind, parent);
            && t != KERNEL_THREAD && (t in s.refcount || t == s.nextThread)
            && (t in s.refcount <==> kind == Kind.Thread) && (t in heaps <==> t in s.refcount)
  {
    assert LinkedIf(true, s, heaps, tasks);
    NextIsNew(s);
    if kind == Kind.Thread {
      NoneOnKernel(s, heaps, tasks, parent);
    }
  }

  lemma AfterSpawn(s: State, heaps: Heaps, tasks: map<nat, nat>, kind: Kind, parent: int, fault: Fault, pid: int)
    requires Linked(s, heaps, tasks) && parent in s.table && (kind == Kind.Thread ==> parent != KERNEL_PID)
    requires pid == -1 || (pid > 0 && pid !in s.table)
    ensures var t := StructureFor(s, kind, parent);
            pid != -1 ==>
              var s' := Started(s, kind, parent, fault, pid);
              if fault == NoFault && kind != UnknownKind then
                && pid !in tasks && pid in s'.table && s'.table[pid].thread == t
                && Linked(s', if t in heaps then heaps else heaps[t := NO_PAGES], tasks[pid := t])
              else Linked(s', heaps, tasks)
  {
    BeforeSpawn(s, heaps, tasks, kind, parent);
    var t := StructureFor(s, kind, parent);
    if pid == -1 {
    } else if fault == NoFault && kind != UnknownKind {
      SpawnLinked(s, heaps, tasks, pid, t, parent);
    } else {
      AbandonLinked(s, heaps, tasks, t);
    }
  }

  /** What a spawn comes to. */
  ghost predicate TaskMade(kind: Kind, parent: int, fault: Fault, pid: int,
                           s: State, m: AddressSpaces.Space, s': State, m': AddressSpaces.Space)
    requires parent in s.table
  {
    if pid == -1 then s' == s && m' == m
    else
      && 1 <= pid <= Pids.MAX_PID && pid !in s.table
      && s' == Started(s, kind, parent, fault, pid)
      && m' == if fault == NoFault && kind != UnknownKind then Entered(m, pid, StructureFor(s, kind, parent)) else m
  }

  /** What the reaping of a task comes to: with the last task of a structure, its heap and its pages go. */
  ghost predicate TaskGone(pid: nat, s: State, m: AddressSpaces.Space, s': State, m': AddressSpaces.Space) {
    && pid in s.table && pid in m.tasks && s.table[pid].thread == m.tasks[pid] && m.tasks[pid] in m.threads
    && m.tasks[pid] in s.refcount
    && s' == Reaped(s, pid) && m' == Left(m, pid, Users(s.table, m.tasks[pid]) == {pid})
  }

  /** What a deed comes to. */
  ghost predicate Does(deed: Deed, w: Whole, w': Whole) {
    match deed
    case NewTask(kind, parent, fault) =>
      if parent in w.procs.table && (kind == Kind.Thread ==> parent != KERNEL_PID) then
        exists pid :: TaskMade(kind, parent, fault, pid, w.procs, w.mem.space, w'.procs, w'.mem.space)
      else w' == w
    case EndTask(pid) =>
      if Ends(w, pid) then TaskGone(pid, w.procs, w.mem.space, w'.procs, w'.mem.space) else w' == w
    case Use(op) =>
      var m := w.mem.space;
      if IsUse(op) && Allowed(op, m.threads, m.tasks, m.current, m.buffers) then
        w'.procs == w.procs && Step(op, w.mem, w'.mem)
      else w' == w
  }

  /** The task is there to be reaped, and not mapped in. */
  predicate Ends(w: Whole, pid: nat) {
    1 <= pid <= Pids.MAX_PID && pid in w.procs.table && pid != w.mem.space.current
  }

  /** The moments between the deeds of a script. */
  ghost predicate IsHistory(script: seq<Deed>, trace: seq<Whole>) {
    && |trace| == |script| + 1 && (forall i | 0 <= i < |trace| :: trace[i].Good())
    && forall i | 0 <= i < |script| :: Does(script[i], trace[i], trace[i + 1])
  }

  lemma OneMoreDeed(script: seq<Deed>, trace: seq<Whole>, deed: Deed, w: Whole)
    requires IsHistory(script, trace) && Does(deed, trace[|script|], w) && w.Good()
    ensures IsHistory(script + [deed], trace + [w])
  {
  }

  /** Steps of memory keep the heaps that there are, and the tasks. */
  lemma UseLinked(s: State, op: Operation, m: Moment, m': Moment)
    requires IsUse(op) && Step(op, m, m') && Linked(s, m.space.threads, m.space.tasks)
    ensures m'.space.threads.Keys == m.space.threads.Keys && m'.space.tasks == m.space.tasks
    ensures Linked(s, m'.space.threads, m'.space.tasks)
  {
    if op.Break? {
      BreakKeepsHeaps(op, m, m');
    }
    assert LinkedIf(true, s, m.space.threads, m.space.tasks);
  }

  lemma BreakKeepsHeaps(op: Operation, m: Moment, m': Moment)
    requires op.Break? && Step(op, m, m')
    ensures m'.space.threads.Keys == m.space.threads.Keys && m'.space.tasks == m.space.tasks
  {
    var t, s := HeapOf(m.space), m.space;
    var fits := s.threads[t].end + op.pages <= s.high && op.pages <= m.free && op.pages <= op.structures;
    var moved := if op.pages > 0 && !fits then 0 else op.pages;
    assert HeapMovedIf(true, s, m'.space, t, moved);
  }

  // ---- What holds over every run ----

  /**
   * In every run a process's heap goes with the last task on it and with nothing else,
   * and its pages go back to the allocator at that moment.
   */
  lemma GoesWithTheLastTask(script: seq<Deed>, trace: seq<Whole>, i: nat, t: nat)
    requires IsHistory(script, trace) && i < |script|
    requires t in trace[i].mem.space.threads && t != KERNEL_THREAD
    ensures t !in trace[i + 1].mem.space.threads <==>
            script[i].EndTask? && Ends(trace[i], script[i].pid) && Users(trace[i].procs.table, t) == {script[i].pid}
    ensures t !in trace[i + 1].mem.space.threads ==>
            var m, m' := trace[i].mem.space, trace[i + 1].mem.space;
            m'.used == m.used - Frames.FramesOf(m.threads[t].pages) && Frames.FramesOf(m.threads[t].pages) <= m.used
  {
    assert Does(script[i], trace[i], trace[i + 1]) && trace[i].Good();
    match script[i] {
      case NewTask(kind, parent, fault) =>
      case EndTask(pid) =>
        if Ends(trace[i], pid) {
          EndIsLast(trace[i], trace[i + 1], pid, t);
        }
      case Use(op) =>
        var m := trace[i].mem.space;
        if IsUse(op) && Allowed(op, m.threads, m.tasks, m.current, m.buffers) {
          UseLinked(trace[i].procs, op, trace[i].mem, trace[i + 1].mem);
        }
    }
  }

  lemma EndIsLast(w: Whole, w': Whole, pid: nat, t: nat)
    requires w.Good() && Ends(w, pid) && t in w.mem.space.threads && t != KERNEL_THREAD
    requires TaskGone(pid, w.procs, w.mem.space, w'.procs, w'.mem.space)
    ensures t !in w'.mem.space.threads <==> Users(w.procs.table, t) == {pid}
    ensures t !in w'.mem.space.threads ==>
              && w'.mem.space.used == w.mem.space.used - Frames.FramesOf(w.mem.space.threads[t].pages)
              && Frames.FramesOf(w.mem.space.threads[t].pages) <= w.mem.space.used
  {
    var m := w.mem.space;
    assert LinkedIf(true, w.procs, m.threads, m.tasks);
    if t == m.tasks[pid] {
      HeapIsUsed(m, t);
    } else {
      assert pid !in Users(w.procs.table, t);
    }
  }

  lemma HeapIsUsed(m: AddressSpaces.Space, t: nat)
    requires m.Holds() && t in m.threads
    ensures Frames.FramesOf(m.threads[t].pages) <= m.used
  {
    forall f | f in Frames.FramesOf(m.threads[t].pages) ensures f in m.used {
      Framebuffers.UsedPages(m, f);
    }
  }

  /** Nothing leaks: every heap but the kernel's belongs to a task that is there. */
  lemma EveryHeapHasATask(w: Whole, t: nat)
    requires w.Good() && t in w.mem.space.threads && t != KERNEL_THREAD
    ensures Users(w.procs.table, t) != {}
  {
    assert LinkedIf(true, w.procs, w.mem.space.threads, w.mem.space.tasks);
    assert w.procs.Has(Counts);
    assert w.procs.refcount[t] >= 1;
  }

  /** When all tasks are reaped and all windows closed, only the kernel's heap and the metadata page are in use. */
  lemma AllGivenBack(w: Whole)
    requires w.Good() && w.procs.table.Keys == {KERNEL_PID} && w.mem.space.buffers == map[]
    ensures w.mem.space.threads.Keys == {KERNEL_THREAD}
    ensures w.mem.space.used == {w.mem.space.meta} + Frames.FramesOf(w.mem.space.threads[KERNEL_THREAD].pages)
  {
    var m := w.mem.space;
    assert m.Has(AddressSpaces.Shapes);
    forall t | t in m.threads ensures t == KERNEL_THREAD {
      if t != KERNEL_THREAD {
        EveryHeapHasATask(w, t);
      }
    }
    forall f ensures f in m.used <==> f == m.meta || f in Frames.FramesOf(m.threads[KERNEL_THREAD].pages) {
      Framebuffers.UsedPages(m, f);
    }
  }
}
