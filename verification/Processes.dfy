// Zeus and Hades: the atomic steps that spawn and reap tasks, with the process
// table, the reference counts of the shared thread structures and the id ring.
module Processes {
  import opened Pids

  /** TASK_TYPE_ELF and TASK_TYPE_ELF_PATH are processes; they differ in their entry only. */
  datatype Kind = Process | Thread | UnknownKind

  /** The step at which a spawn runs out of something, if any. */
  datatype Fault = NoFault | NoTaskInfo | NoThreadInfo | NoTask

  datatype Task = Task(thread: nat, parent: int)

  const KERNEL_PID: int := 0
  const KERNEL_THREAD: nat := 0

  type Table = map<int, Task>

  /** The unreaped tasks that point at a thread structure, the kernel task aside. */
  ghost function Users(table: Table, thread: nat): set<int> {
    set p | p in table && p != KERNEL_PID && table[p].thread == thread
  }

  function Children(table: Table, parent: int): set<int> {
    set p | p in table && p != KERNEL_PID && table[p].parent == parent
  }

  lemma UsersAfterAdd(table: Table, pid: int, task: Task, thread: nat)
    requires pid !in table && pid != KERNEL_PID
    ensures Users(table[pid := task], thread) ==
            Users(table, thread) + if task.thread == thread then {pid} else {}
    ensures pid !in Users(table, thread)
  {
  }

  lemma UsersAfterRemove(table: Table, pid: int, thread: nat)
    requires pid in table && pid != KERNEL_PID
    ensures Users(table - {pid}, thread) ==
            Users(table, thread) - if table[pid].thread == thread then {pid} else {}
    ensures table[pid].thread == thread ==> pid in Users(table, thread)
  {
  }

  datatype Aspect = Tasks | Counts | Structures | Kernel

  /** The process table, the thread structures, and the history of their destruction. */
  datatype State = State(
    table: Table,
    refcount: map<nat, int>, // the thread structures that exist
    nextThread: nat, // structures are numbered as they are made
    destroyed: seq<nat>, // structures torn down, in order
    kernelShared: bool) // a thread has been spawned, or nearly, from the kernel task
  {
    ghost predicate Has(a: Aspect) {
      match a
      case Tasks =>
        && KERNEL_PID in table && table[KERNEL_PID].thread == KERNEL_THREAD
        && forall p | p in table && p != KERNEL_PID :: table[p].thread in refcount
      case Counts =>
        && (forall t | t in refcount :: refcount[t] == |Users(table, t)|)
        && (forall t | t in refcount && t != KERNEL_THREAD :: refcount[t] >= 1)
      case Structures =>
        && nextThread > KERNEL_THREAD
        && (forall t | t in refcount :: t < nextThread && t !in destroyed)
        && (forall t: nat | t < nextThread :: t in refcount || t in destroyed)
        && (forall i | 0 <= i < |destroyed| :: destroyed[i] < nextThread)
        && (forall i, j | 0 <= i < j < |destroyed| :: destroyed[i] != destroyed[j])
      case Kernel =>
        && (KERNEL_THREAD in refcount <==> !kernelShared || Users(table, KERNEL_THREAD) != {})
        && (!kernelShared ==> Users(table, KERNEL_THREAD) == {})
    }

    ghost predicate Holds() {
      forall a {:trigger Has(a)} :: Has(a)
    }
  }

  lemma StateHolds(s: State)
    requires s.Has(Tasks) && s.Has(Counts) && s.Has(Structures) && s.Has(Kernel)
    ensures s.Holds()
  {
    forall a ensures s.Has(a) {
      match a case Tasks => case Counts => case Structures => case Kernel =>
    }
  }

  /** The state of task_init. */
  lemma InitialHolds(s: State)
    requires s.table == map[KERNEL_PID := Task(KERNEL_THREAD, KERNEL_PID)]
    requires s.refcount == map[KERNEL_THREAD := 0] && s.nextThread == KERNEL_THREAD + 1
    requires s.destroyed == [] && !s.kernelShared
    ensures s.Holds()
  {
    assert Users(s.table, KERNEL_THREAD) == {};
    StateHolds(s);
  }

  /** A reference taken on a structure, which is made when there is none. */
  function Acquired(s: State, thread: nat): State {
    s.(refcount := s.refcount[thread := if thread in s.refcount then s.refcount[thread] + 1 else 1],
       nextThread := if thread in s.refcount then s.nextThread else s.nextThread + 1)
  }

  /** A new task on a structure whose reference it owns. */
  function Spawned(s: State, pid: int, thread: nat, parent: int): State {
    Acquired(s, thread).(table := s.table[pid := Task(thread, parent)],
                         kernelShared := s.kernelShared || thread == KERNEL_THREAD)
  }

  lemma SpawnedHolds(s: State, pid: int, thread: nat, parent: int)
    requires s.Holds() && pid !in s.table && pid != KERNEL_PID
    requires thread in s.refcount || thread == s.nextThread
    ensures Spawned(s, pid, thread, parent).Holds()
  {
    assert s.Has(Tasks) && s.Has(Counts) && s.Has(Structures) && s.Has(Kernel);
    var s' := Spawned(s, pid, thread, parent);
    SpawnedCounts(s, pid, thread, parent);
    UsersAfterAdd(s.table, pid, Task(thread, parent), KERNEL_THREAD);
    StateHolds(s');
  }

  lemma SpawnedCounts(s: State, pid: int, thread: nat, parent: int)
    requires s.Has(Tasks) && s.Has(Counts) && pid !in s.table && pid != KERNEL_PID
    ensures Spawned(s, pid, thread, parent).Has(Counts)
  {
    var s' := Spawned(s, pid, thread, parent);
    forall t | t in s'.refcount
      ensures s'.refcount[t] == |Users(s'.table, t)| && (t != KERNEL_THREAD ==> s'.refcount[t] >= 1)
    {
      UsersAfterAdd(s.table, pid, Task(thread, parent), t);
      if t !in s.refcount { assert Users(s.table, t) == {}; }
    }
  }

  /** task_thread_destroy: drops a reference, and tears the structure down with the last one. */
  function Released(s: State, thread: nat): State
    requires thread in s.refcount
  {
    if s.refcount[thread] == 1 then
      s.(refcount := s.refcount - {thread}, destroyed := s.destroyed + [thread])
    else
      s.(refcount := s.refcount[thread := s.refcount[thread] - 1])
  }

  /** What Hades does to the table and the structures. */
  function Reaped(s: State, pid: int): State
    requires pid in s.table && s.table[pid].thread in s.refcount
  {
    Released(s.(table := s.table - {pid}), s.table[pid].thread)
  }

  lemma ReapedHolds(s: State, pid: int)
    requires s.Holds() && pid in s.table && pid != KERNEL_PID
    ensures s.table[pid].thread in s.refcount && Reaped(s, pid).Holds()
    ensures s.refcount[s.table[pid].thread] == 1 <==> Users(s.table - {pid}, s.table[pid].thread) == {}
  {
    assert s.Has(Tasks) && s.Has(Counts) && s.Has(Structures) && s.Has(Kernel);
    ReapedTasks(s, pid);
    ReapedCounts(s, pid);
    ReapedStructures(s, pid);
    ReapedKernel(s, pid);
    StateHolds(Reaped(s, pid));
  }

  lemma ReapedCounts(s: State, pid: int)
    requires s.Has(Tasks) && s.Has(Counts) && pid in s.table && pid != KERNEL_PID
    ensures s.table[pid].thread in s.refcount && Reaped(s, pid).Has(Counts)
    ensures s.refcount[s.table[pid].thread] == 1 <==> Users(s.table - {pid}, s.table[pid].thread) == {}
  {
    var thread, s' := s.table[pid].thread, Reaped(s, pid);
    UsersAfterRemove(s.table, pid, thread);
    assert |Users(s'.table, thread)| == s.refcount[thread] - 1;
    forall t | t in s'.refcount
      ensures s'.refcount[t] == |Users(s'.table, t)| && (t != KERNEL_THREAD ==> s'.refcount[t] >= 1)
    {
      UsersAfterRemove(s.table, pid, t);
    }
  }

  lemma ReapedKernel(s: State, pid: int)
    requires s.Has(Tasks) && s.Has(Counts) && s.Has(Kernel) && pid in s.table && pid != KERNEL_PID
    ensures s.table[pid].thread in s.refcount && Reaped(s, pid).Has(Kernel)
  {
    UsersAfterRemove(s.table, pid, KERNEL_THREAD);
    ReapedCounts(s, pid);
  }

  lemma ReapedTasks(s: State, pid: int)
    requires s.Has(Tasks) && s.Has(Counts) && pid in s.table && pid != KERNEL_PID
    ensures s.table[pid].thread in s.refcount && Reaped(s, pid).Has(Tasks)
  {
    var thread, s' := s.table[pid].thread, Reaped(s, pid);
    forall p | p in s'.table && p != KERNEL_PID ensures s'.table[p].thread in s'.refcount {
      if s.table[p].thread == thread {
        assert {p, pid} <= Users(s.table, thread);
        assert |{p, pid}| == 2;
        SubsetSize({p, pid}, Users(s.table, thread));
      }
    }
  }

  lemma SubsetSize(a: set<int>, b: set<int>)
    requires a <= b
    ensures |a| <= |b|
  {
    assert b == a + (b - a);
  }

  lemma ReapedStructures(s: State, pid: int)
    requires s.Has(Structures) && pid in s.table && s.table[pid].thread in s.refcount
    ensures Reaped(s, pid).Has(Structures)
  {
  }

  /**
   * A spawn that fails once it has its structure gives the reference back. A structure
   * of its own goes again; a parent's is as before, unless it is the kernel's and no
   * other task has it: that one is counted from zero, and is torn down.
   */
  function Abandoned(s: State, thread: nat): State {
    if thread !in s.refcount then
      s.(nextThread := s.nextThread + 1, destroyed := s.destroyed + [thread])
    else if s.refcount[thread] == 0 then
      s.(refcount := s.refcount - {thread}, destroyed := s.destroyed + [thread], kernelShared := true)
    else
      s
  }

  lemma AbandonedHolds(s: State, thread: nat)
    requires s.Holds() && (thread in s.refcount || thread == s.nextThread)
    ensures Abandoned(s, thread).Holds()
    ensures thread in Acquired(s, thread).refcount
    ensures var s' := Released(Acquired(s, thread), thread);
            Abandoned(s, thread)
            == if thread in s.refcount && s.refcount[thread] == 0 then s'.(kernelShared := true) else s'
  {
    assert s.Has(Counts) && s.Has(Structures);
    var was := Acquired(s, thread);
    if thread !in s.refcount {
      assert was.refcount - {thread} == s.refcount;
      OwnAbandoned(s, thread);
    } else if s.refcount[thread] == 0 {
      assert was.refcount - {thread} == s.refcount - {thread};
      KernelAbandoned(s, thread);
    } else {
      assert was.refcount[thread := s.refcount[thread]] == s.refcount;
    }
  }

  lemma OwnAbandoned(s: State, thread: nat)
    requires s.Holds() && thread == s.nextThread && thread !in s.refcount
    ensures Abandoned(s, thread).Holds()
  {
    assert s.Has(Tasks) && s.Has(Counts) && s.Has(Structures) && s.Has(Kernel);
    StateHolds(Abandoned(s, thread));
  }

  lemma KernelAbandoned(s: State, thread: nat)
    requires s.Holds() && thread in s.refcount && s.refcount[thread] == 0
    ensures Abandoned(s, thread).Holds()
  {
    assert s.Has(Tasks) && s.Has(Counts) && s.Has(Structures) && s.Has(Kernel);
    forall p | p in s.table && p != KERNEL_PID ensures s.table[p].thread != thread {
      assert p !in Users(s.table, thread);
    }
    StateHolds(Abandoned(s, thread));
  }

  /** What a spawn that got its id does. */
  function Started(s: State, kind: Kind, parent: int, fault: Fault, pid: int): State
    requires parent in s.table
  {
    var thread := if kind == Thread then s.table[parent].thread else s.nextThread;
    if fault == NoTaskInfo || (fault == NoThreadInfo && kind != Thread) then s
    else if fault != NoFault || kind == UnknownKind then Abandoned(s, thread)
    else Spawned(s, pid, thread, parent)
  }

  /**
   * The task with its id is in the table, as a child of the one that asked for it: a
   * thread on the structure of that one, a process on a structure that no other task has.
   */
  ghost predicate NewChild(before: Table, kind: Kind, parent: int, pid: int, after: Table) {
    && pid !in before && pid in after && after - {pid} == before
    && parent in before && after[pid].parent == parent
    && (kind == Thread ==> after[pid].thread == before[parent].thread)
    && (kind == Process ==> forall p | p in before :: before[p].thread != after[pid].thread)
  }

  lemma SpawnEnters(s: State, kind: Kind, parent: int, fault: Fault, pid: int)
    requires s.Holds() && parent in s.table && pid !in s.table
    ensures var after := Started(s, kind, parent, fault, pid).table;
            if fault == NoFault && kind != UnknownKind then NewChild(s.table, kind, parent, pid, after)
            else after == s.table
  {
    assert s.Has(Tasks) && s.Has(Structures);
  }

  class ProcessManager {
    const pids: PidRing
    var table: Table // process_table
    var refcount: map<nat, int>
    var nextThread: nat
    var numTasks: int
    ghost var destroyed: seq<nat>
    ghost var kernelShared: bool

    ghost function View(): State
      reads this
    {
      State(table, refcount, nextThread, destroyed, kernelShared)
    }

    ghost predicate Valid()
      reads this, pids, pids.table
    {
      && pids.Valid()
      && table.Keys == pids.live + {KERNEL_PID} && KERNEL_PID !in pids.live
      && numTasks == |pids.live|
      && View().Holds()
    }

    /** task_init: the kernel task, whose static thread structure has no reference counted. */
    constructor ()
      ensures Valid() && fresh(pids) && fresh(pids.table) && pids.queue == IdsFrom(1)
      ensures table == map[KERNEL_PID := Task(KERNEL_THREAD, KERNEL_PID)]
      ensures refcount == map[KERNEL_THREAD := 0] && destroyed == [] && !kernelShared
    {
      pids := new PidRing();
      table := map[KERNEL_PID := Task(KERNEL_THREAD, KERNEL_PID)];
      refcount := map[KERNEL_THREAD := 0];
      nextThread, numTasks, destroyed, kernelShared := KERNEL_THREAD + 1, 0, [], false;
      new;
      InitialHolds(View());
    }

    /** task_thread_destroy */
    method ThreadDestroy(thread: nat)
      requires thread in refcount
      modifies this`refcount, this`destroyed
      ensures View() == Released(old(View()), thread)
    {
      var want := refcount[thread] - 1;
      if want != 0 {
        refcount := refcount[thread := want];
        return;
      }
      refcount := refcount - {thread};
      destroyed := destroyed + [thread];
    }

    /** task_thread_ref on a structure that exists. */
    method ThreadRef(thread: nat)
      requires thread in refcount
      modifies this`refcount
      ensures refcount == old(refcount)[thread := old(refcount)[thread] + 1]
    {
      refcount := refcount[thread := refcount[thread] + 1];
    }

    /** task_thread_init: a new structure with one reference, unless there is no memory. */
    method ThreadInit(memory: bool) returns (made: bool, thread: nat)
      requires View().Holds()
      modifies this`refcount, this`nextThread
      ensures made == memory && (!made ==> refcount == old(refcount) && nextThread == old(nextThread))
      ensures thread == old(nextThread) && thread !in old(refcount)
      ensures made ==> nextThread == old(nextThread) + 1 && refcount == old(refcount)[thread := 1]
    {
      assert View().Has(Structures);
      made, thread := memory, nextThread;
      if made {
        nextThread := nextThread + 1;
        refcount := refcount[thread := 1];
      }
    }

    /** The structure of a new task: the parent's for a thread, one of its own otherwise. */
    method Acquire(kind: Kind, parent: int, memory: bool) returns (made: bool, thread: nat)
      requires View().Holds() && parent in table && (kind == Thread ==> table[parent].thread in refcount)
      modifies this`refcount, this`nextThread
      ensures made == (kind == Thread || memory)
      ensures thread == if kind == Thread then table[parent].thread else old(nextThread)
      ensures View() == if made then Acquired(old(View()), thread) else old(View())
      ensures thread in old(refcount) || thread == old(nextThread)
    {
      if kind == Thread {
        made, thread := true, table[parent].thread;
        ThreadRef(thread);
      } else {
        made, thread := ThreadInit(memory);
      }
    }

    /** The structure of a new task that could not be started. */
    method Abandon(thread: nat, ghost s: State)
      requires s.Holds() && (thread in s.refcount || thread == s.nextThread)
      requires View() == Acquired(s, thread)
      modifies this`refcount, this`destroyed, this`kernelShared
      ensures View() == Abandoned(s, thread) && View().Holds()
    {
      AbandonedHolds(s, thread);
      ThreadDestroy(thread);
      kernelShared := kernelShared || (thread in s.refcount && s.refcount[thread] == 0);
    }

    /** A started task enters the table. */
    method AddTask(pid: int, thread: nat, parent: int, ghost s: State)
      requires s.Holds() && (thread in s.refcount || thread == s.nextThread)
      requires View() == Acquired(s, thread) && pid !in table && pid != KERNEL_PID
      modifies this`table, this`numTasks, this`kernelShared
      ensures View() == Spawned(s, pid, thread, parent) && View().Holds()
      ensures numTasks == old(numTasks) + 1
    {
      SpawnedHolds(s, pid, thread, parent);
      table := table[pid := Task(thread, parent)];
      kernelShared := kernelShared || thread == KERNEL_THREAD;
      numTasks := numTasks + 1;
    }

    /** Everything of a spawn but the id: takes a structure, and starts the task or gives it back. */
    method Start(kind: Kind, parent: int, fault: Fault, pid: int) returns (started: bool)
      requires View().Holds() && parent in table && (kind == Thread ==> table[parent].thread in refcount)
      requires pid !in table && pid != KERNEL_PID
      modifies this
      ensures View() == Started(old(View()), kind, parent, fault, pid) && View().Holds()
      ensures started == (fault == NoFault && kind != UnknownKind)
      ensures numTasks == old(numTasks) + if started then 1 else 0
      ensures table.Keys == old(table.Keys) + if started then {pid} else {}
    {
      ghost var s := View();
      started := false;
      if fault == NoTaskInfo {
        return;
      }
      var made, thread := Acquire(kind, parent, fault != NoThreadInfo);
      if !made {
        return;
      }
      if kind == UnknownKind || fault != NoFault {
        Abandon(thread, s);
        return;
      }
      AddTask(pid, thread, parent, s);
      started := true;
    }

    /** An id has been taken for a task that is not in the table yet. */
    ghost predicate Pending(pid: int)
      reads this, pids, pids.table
    {
      && pids.Valid() && pid in pids.live && KERNEL_PID !in pids.live && pid !in table
      && table.Keys + {pid} == pids.live + {KERNEL_PID}
      && numTasks == |pids.live| - 1
      && View().Holds()
    }

    /** A spawn that has its id; the id goes back if the task does not start. */
    method SpawnAs(kind: Kind, parent: int, fault: Fault, pid: int) returns (spawned: bool)
      requires Pending(pid) && pid > 0 && parent in table && (kind == Thread ==> table[parent].thread in refcount)
      modifies this, pids, pids.table
      ensures Valid()
      ensures View() == Started(old(View()), kind, parent, fault, pid)
      ensures spawned == (fault == NoFault && kind != UnknownKind)
      ensures pids.live == old(pids.live) - if spawned then {} else {pid}
      ensures spawned ==> unchanged(pids) && unchanged(pids.table)
    {
      spawned := Start(kind, parent, fault, pid);
      if !spawned {
        GiveBack(pid);
      }
    }

    /** The id of a task that did not start goes back. */
    method GiveBack(pid: int)
      requires Pending(pid) && pid > 0
      modifies pids, pids.table
      ensures Valid() && pids.live == old(pids.live) - {pid}
    {
      pids.Free(pid);
    }

    /**
     * One turn of zeus: spawns a process, or a thread of the parent's process, and
     * tells the caller the id. The structure a thread is to share exists. A spawn that fails leaves
     * the table and the live ids as they were; it fails only for a reason, and the id it
     * tells is then that of no task.
     */
    method Spawn(kind: Kind, parent: int, fault: Fault) returns (spawned: bool, pid: int)
      requires Valid() && parent in table && (kind == Thread ==> table[parent].thread in refcount)
      modifies this, pids, pids.table
      ensures Valid()
      ensures pid == -1 || (1 <= pid <= MAX_PID && pid !in old(table))
      ensures pid == -1 ==> |pids.live| >= 126
      ensures View() == if pid == -1 then old(View()) else Started(old(View()), kind, parent, fault, pid)
      ensures spawned == (pid != -1 && fault == NoFault && kind != UnknownKind)
      ensures spawned ==> NewChild(old(table), kind, parent, pid, table)
      ensures !spawned ==> table == old(table)
      ensures pids.live == old(pids.live) + if spawned then {pid} else {}
      ensures old(pids.queue) != [] ==> pid == old(pids.queue)[0]
      ensures spawned && old(pids.queue) != [] ==> pids.queue == old(pids.queue)[1..]
    {
      pid := pids.Allocate();
      if pid <= 0 {
        return false, pid;
      }
      ghost var s := View();
      spawned := SpawnAs(kind, parent, fault, pid);
      SpawnEnters(s, kind, parent, fault, pid);
    }

    /** The children of a dead task that are deleted in their turn: the loop stops before id 127. */
    method Orphans(deadPid: int) returns (orphans: set<int>)
      requires forall p | p in table && p != KERNEL_PID :: 1 <= p <= MAX_PID
      ensures orphans == Children(table, deadPid) - {MAX_PID}
      ensures orphans == Children(table, deadPid) <==> !(MAX_PID in table && table[MAX_PID].parent == deadPid)
    {
      orphans := {};
      for i := 1 to MAX_PID
        invariant orphans == set p | p in Children(table, deadPid) && p < i
      {
        if i in table && table[i].parent == deadPid {
          orphans := orphans + {i};
        }
      }
    }

    /** One turn of hades: reaps the task, and names the tasks it deletes next. */
    method Reap(deadPid: int) returns (ghost reaped: bool, orphans: set<int>)
      requires Valid() && 1 <= deadPid <= MAX_PID
      modifies this, pids, pids.table
      ensures Valid()
      ensures reaped == (deadPid in old(table))
      ensures !reaped ==> View() == old(View()) && orphans == {} && pids.live == old(pids.live)
      ensures reaped ==>
                && old(table)[deadPid].thread in old(refcount)
                && View() == Reaped(old(View()), deadPid)
                && pids.live == old(pids.live) - {deadPid}
                && orphans == Children(table, deadPid) - {MAX_PID}
                && (orphans == Children(table, deadPid) <==> !(MAX_PID in table && table[MAX_PID].parent == deadPid))
    {
      ghost var s := View();
      reaped, orphans := false, {};
      if deadPid in table {
        pids.FreeIds(deadPid);
        var taskInfo := table[deadPid];
        ReapedHolds(s, deadPid);
        table := table - {deadPid};
        ThreadDestroy(taskInfo.thread);
        assert View() == Reaped(s, deadPid);
        orphans := Orphans(deadPid);
        pids.Free(deadPid);
        numTasks := numTasks - 1;
        reaped := true;
      }
    }
  }

  /** Once id 127 is lost no task has it, and every child of a dead task is named. */
  lemma LastPidLost(m: ProcessManager, deadPid: int)
    requires m.Valid() && m.pids.lost == MAX_PID
    ensures MAX_PID !in m.table && Children(m.table, deadPid) - {MAX_PID} == Children(m.table, deadPid)
  {
    m.pids.FreeIds(MAX_PID);
  }

  /** `i` tasks have been spawned, all but the first of them by the first. */
  ghost predicate FamilyOf(m: ProcessManager, i: nat)
    reads m, m.pids, m.pids.table
  {
    && m.Valid() && 1 <= i <= MAX_PID && 1 in m.table
    && m.pids.queue == IdsFrom(i + 1)
    && (i > 1 ==> i in m.table && m.table[i].parent == 1)
  }

  method SpawnChild(m: ProcessManager, i: nat)
    requires FamilyOf(m, i) && i < MAX_PID
    modifies m, m.pids, m.pids.table
    ensures FamilyOf(m, i + 1)
  {
    FirstOfIds(i + 1);
    var spawned, pid := m.Spawn(Process, 1, NoFault);
  }

  method FirstTask() returns (m: ProcessManager)
    ensures fresh(m) && fresh(m.pids) && fresh(m.pids.table) && FamilyOf(m, 1)
  {
    m := new ProcessManager();
    FirstOfIds(1);
    var spawned, pid := m.Spawn(Process, KERNEL_PID, NoFault);
  }

  /** A task with all the other ids for children dies: 127 is a child, and is not named. */
  method LastChildIsMissed() returns (m: ProcessManager, orphans: set<int>)
    ensures fresh(m) && m.Valid() && 1 !in m.table
    ensures MAX_PID in m.table && m.table[MAX_PID].parent == 1 && MAX_PID !in orphans
  {
    m := FirstTask();
    for i := 1 to MAX_PID
      invariant fresh(m.pids) && fresh(m.pids.table) && FamilyOf(m, i)
    {
      SpawnChild(m, i);
    }
    ghost var reaped;
    reaped, orphans := m.Reap(1);
  }

  // ---- What holds over every run ----

  /** A structure is torn down with its last task and not before. */
  lemma TornDownWithTheLastTask(s: State, pid: int)
    requires s.Holds() && pid in s.table && pid != KERNEL_PID
    ensures s.table[pid].thread in s.refcount
    ensures var thread := s.table[pid].thread;
            Reaped(s, pid).destroyed == if Users(s.table, thread) == {pid} then s.destroyed + [thread] else s.destroyed
  {
    ReapedHolds(s, pid);
    UsersAfterRemove(s.table, pid, s.table[pid].thread);
  }

  /**
   * Every structure ever made is torn down once no task points at it and not before,
   * and never twice.
   */
  lemma TornDownOnce(s: State, thread: nat)
    requires s.Holds() && KERNEL_THREAD < thread < s.nextThread
    ensures thread in s.destroyed <==> Users(s.table, thread) == {}
    ensures multiset(s.destroyed)[thread] <= 1
  {
    assert s.Has(Structures) && s.Has(Tasks) && s.Has(Counts);
    OnceInDistinct(s.destroyed, thread);
    if thread in s.destroyed {
      forall p ensures p !in Users(s.table, thread) {
      }
    } else {
      assert |Users(s.table, thread)| >= 1;
    }
  }

  lemma {:induction false} OnceInDistinct(q: seq<nat>, x: nat)
    requires forall i, j | 0 <= i < j < |q| :: q[i] != q[j]
    ensures multiset(q)[x] <= 1
  {
    if |q| > 0 {
      var front, last := q[..|q| - 1], q[|q| - 1];
      assert q == front + [last];
      OnceInDistinct(front, x);
      if last == x {
        assert x !in front;
      }
    }
  }

  /**
   * The kernel's own structure is there exactly as long as no thread has been spawned
   * from the kernel task, or one such thread is left.
   */
  lemma KernelStays(s: State)
    requires s.Holds()
    ensures KERNEL_THREAD in s.refcount <==> !s.kernelShared || Users(s.table, KERNEL_THREAD) != {}
    ensures KERNEL_THREAD in s.destroyed <==> KERNEL_THREAD !in s.refcount
  {
    assert s.Has(Kernel) && s.Has(Structures);
  }

  /** A thread of the kernel task takes the kernel's structure with it exactly when it is the last one. */
  lemma KernelThreadTakesTheKernel(s: State, pid: int)
    requires s.Holds() && pid in Users(s.table, KERNEL_THREAD)
    ensures s.table[pid].thread in s.refcount
    ensures KERNEL_THREAD in Reaped(s, pid).destroyed <==> Users(s.table, KERNEL_THREAD) == {pid}
  {
    ReapedHolds(s, pid);
    KernelStays(s);
    TornDownWithTheLastTask(s, pid);
  }

  /** A thread spawn from the kernel task that fails once it has its reference does so exactly when there is none. */
  lemma FailedKernelThreadTakesTheKernel(s: State)
    requires s.Holds() && KERNEL_THREAD in s.refcount
    ensures KERNEL_THREAD in Abandoned(s, KERNEL_THREAD).destroyed <==> Users(s.table, KERNEL_THREAD) == {}
  {
    assert s.Has(Kernel) && s.Has(Counts) && s.Has(Structures);
    if s.refcount[KERNEL_THREAD] == 0 {
      assert Abandoned(s, KERNEL_THREAD).destroyed[|s.destroyed|] == KERNEL_THREAD;
    }
  }

  /** Any other parent is untouched by a thread spawn that fails. */
  lemma FailedThreadLeavesTheParent(s: State, parent: int)
    requires s.Holds() && parent in s.table && parent != KERNEL_PID
    ensures Abandoned(s, s.table[parent].thread) == s
  {
    assert s.Has(Tasks) && s.Has(Counts);
    assert parent in Users(s.table, s.table[parent].thread);
  }
}
