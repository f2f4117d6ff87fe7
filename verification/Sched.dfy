/** The scheduler (sys/sched/sched.c, sys/include/sched): cores with queues of processes, processes
    with queues of threads, and the yield that passes the turn. */
module Sched {
  import opened Bits
  import opened TailQueue
  import opened Turns

  const THREAD_STARTUP: nat := 1

  class Thread {
    var tf: Trapframe
    var flags: nat
    var parent: Process?
    ghost var at: nat

    constructor (tf: Trapframe, parent: Process?)
      ensures this.tf == tf && this.parent == parent && flags == 0
    {
      this.tf, this.flags, this.parent := tf, 0, parent;
    }
  }

  class Process {
    const threadq: Queue<Thread>
    var runningThread: Elem<Thread>
    var threadCount: nat
    ghost var at: nat
    ghost var home: Core?

    /** The queue holds the threads of state m, in order, each in its place. */
    ghost predicate ThreadAt(m: ProcState, j: nat)
      reads threadq, set e | e in threadq.elems :: e.item
      requires j < |threadq.elems| && j < |m.threads|
    {
      var t := threadq.elems[j].item;
      && t.parent == this && t.at == j && t.flags < WORD_MOD
      && m.threads[j] == ThreadState(t.tf, And(t.flags, THREAD_STARTUP) != 0)
    }

    ghost predicate Is(m: ProcState)
      reads this, threadq, threadq.elems, set e | e in threadq.elems :: e.item
    {
      && threadq.Valid() && |threadq.elems| == |m.threads| == threadCount
      && m.running < |m.threads| && runningThread == threadq.elems[m.running]
      && forall j: nat {:trigger ThreadAt(m, j)} :: j < |m.threads| ==> ThreadAt(m, j)
    }

    lemma OwnsThreads(m: ProcState)
      requires Is(m)
      ensures forall e {:trigger e in threadq.elems} :: e in threadq.elems ==> e.item.parent == this
    {
      forall e | e in threadq.elems ensures e.item.parent == this {
        var j: nat :| j < |threadq.elems| && threadq.elems[j] == e;
        assert ThreadAt(m, j);
      }
    }

    /** A process none of whose objects changed is as before. */
    twostate lemma StillIs(m: ProcState)
      requires old(Is(m)) && unchanged(this) && unchanged(threadq)
      requires forall e {:trigger e in threadq.elems} :: e in threadq.elems ==>
                 old(allocated(e)) && unchanged(e) && unchanged(e.item)
      ensures Is(m)
    {
      forall j: nat | j < |m.threads| ensures ThreadAt(m, j) { assert old(ThreadAt(m, j)); }
      forall i: nat | i < |threadq.elems| ensures threadq.LinkedAt(i) {
        assert threadq.elems[i] in threadq.elems && old(threadq.LinkedAt(i));
      }
    }

    constructor (main: Elem<Thread>)
      ensures runningThread == main && threadCount == 1 && home == null
      ensures fresh(threadq) && threadq.Valid() && threadq.elems == []
    {
      threadq := new Queue();
      runningThread, threadCount, home := main, 1, null;
    }

    /** next_thread */
    method NextThread(ghost r: nat)
      requires threadq.Valid() && r < |threadq.elems| && runningThread == threadq.elems[r]
      modifies this`runningThread
      ensures runningThread == threadq.elems[(r + 1) % |threadq.elems|]
    {
      assert threadq.LinkedAt(r);
      var thread := runningThread;
      var next := thread.next;
      if next == null {
        next := threadq.First();
      }
      runningThread := next;
    }

    /** enqueue_thread */
    method AddThread(thread: Elem<Thread>, ghost m: ProcState)
      requires Is(m) && thread !in threadq.elems && thread.item.parent == this && thread.item.flags < WORD_MOD
      requires forall e :: e in threadq.elems ==> e.item != thread.item
      modifies threadq, threadq.elems, thread, this`threadCount, thread.item`at
      ensures threadq.elems == old(threadq.elems) + [thread] && runningThread == old(runningThread)
      ensures Is(m.(threads := m.threads + [ThreadState(thread.item.tf, And(thread.item.flags, THREAD_STARTUP) != 0)]))
    {
      ghost var t := ThreadState(thread.item.tf, And(thread.item.flags, THREAD_STARTUP) != 0);
      ghost var m' := m.(threads := m.threads + [t]);
      threadq.InsertTail(thread);
      threadCount := threadCount + 1;
      thread.item.at := |m.threads|;
      forall j: nat | j < |m'.threads| ensures ThreadAt(m', j) {
        if j < |m.threads| { assert old(ThreadAt(m, j)); }
      }
    }

    /** enqueue_process, line 56 */
    method MarkStartup(ghost m: ProcState)
      requires Is(m)
      modifies runningThread.item`flags
      ensures Is(Started(m))
    {
      assert ThreadAt(m, m.running);
      var thread := runningThread.item;
      StartupSet(thread.flags);
      thread.flags := Or(thread.flags, THREAD_STARTUP);
      forall j: nat | j < |m.threads| ensures ThreadAt(Started(m), j) {
        assert old(ThreadAt(m, j));
      }
    }

    /** sched_yield, lines 139-140: the running thread is stopped at tf and the next one has the turn. */
    method StopThread(tf: Trapframe, ghost m: ProcState)
      requires Is(m)
      modifies this`runningThread, runningThread.item`tf
      ensures Is(ProcState(m.threads[m.running := m.threads[m.running].(tf := tf)], (m.running + 1) % |m.threads|))
    {
      ghost var m' := ProcState(m.threads[m.running := m.threads[m.running].(tf := tf)], (m.running + 1) % |m.threads|);
      assert ThreadAt(m, m.running);
      var thread := runningThread.item;
      thread.tf := tf;
      NextThread(m.running);
      forall j: nat | j < |m.threads| ensures ThreadAt(m', j) {
        assert old(ThreadAt(m, j));
      }
    }
  }

  /** create_process, sys/sched/process.c: a process with its main thread, which starts at tf */
  method CreateProcess(tf: Trapframe) returns (p: Process)
    ensures fresh(p) && fresh(p.threadq) && fresh(p.runningThread) && fresh(p.runningThread.item)
    ensures p.home == null && p.Is(ProcState([ThreadState(tf, false)], 0))
  {
    var thread := new Thread(tf, null);
    var main := new Elem(thread);
    p := new Process(main);
    thread.parent := p;
    p.threadq.InsertTail(main);
    thread.at := 0;
    assert p.ThreadAt(ProcState([ThreadState(tf, false)], 0), 0);
  }

  class Core {
    const processq: Queue<Process>
    var runningProcess: Elem?<Process>
    ghost var model: CoreState

    ghost predicate ProcAt(i: nat)
      reads *
      requires i < |processq.elems| && i < |model.procs|
    {
      var p := processq.elems[i].item;
      p.at == i && p.home == this && p.Is(model.procs[i])
    }

    ghost predicate Valid()
      reads *
    {
      && processq.Valid() && CoreOk(model) && |processq.elems| == |model.procs|
      && runningProcess == (if model.procs == [] then null else processq.elems[model.running])
      && forall i: nat {:trigger ProcAt(i)} :: i < |model.procs| ==> ProcAt(i)
    }

    constructor ()
      ensures Valid() && model == CoreState([], 0) && fresh(processq)
    {
      processq := new Queue();
      runningProcess := null;
      model := CoreState([], 0);
    }

    /** next_process */
    method NextProcess(ghost r: nat)
      requires processq.Valid() && r < |processq.elems| && runningProcess == processq.elems[r]
      modifies this`runningProcess
      ensures runningProcess == processq.elems[(r + 1) % |processq.elems|]
    {
      assert processq.LinkedAt(r);
      var running := runningProcess;
      runningProcess := running.next;
      if runningProcess == null {
        runningProcess := processq.First();
      }
    }

    /** sched_yield on this core, interrupted with trapframe tf; the processor goes on with the
        trapframe it leaves. */
    method SchedYield(tf: Trapframe) returns (resumed: Trapframe)
      requires Valid() && model.procs != []
      modifies this, runningProcess.item, runningProcess.item.runningThread.item
      ensures Valid() && model == Yield(old(model), tf) && resumed == Current(model).tf
    {
      CurrentThread();
      var thread := runningProcess.item.runningThread.item;
      if And(thread.flags, THREAD_STARTUP) == 0 {
        PassTurn(tf);
      } else {
        StartRunning(tf);
      }
      CurrentThread();
      thread := runningProcess.item.runningThread.item;
      resumed := thread.tf;
    }

    lemma CurrentThread()
      requires Valid() && model.procs != []
      ensures var t := runningProcess.item.runningThread.item;
              && t.flags < WORD_MOD
              && Current(model) == ThreadState(t.tf, And(t.flags, THREAD_STARTUP) != 0)
    {
      assert ProcAt(model.running);
      assert runningProcess.item.ThreadAt(RunningProc(model), RunningProc(model).running);
    }

    /** sched_yield, lines 139-141 */
    method PassTurn(tf: Trapframe)
      requires Valid() && model.procs != [] && !Current(model).startup
      modifies this, runningProcess.item`runningThread, runningProcess.item.runningThread.item`tf
      ensures Valid() && model == Yield(old(model), tf)
    {
      ghost var c, m := model, RunningProc(model);
      assert ProcAt(c.running);
      var running := runningProcess.item;
      assert running.ThreadAt(m, m.running);
      ghost var m' := ProcState(m.threads[m.running := m.threads[m.running].(tf := tf)], (m.running + 1) % |m.threads|);
      forall i: nat | i < |c.procs| && i != c.running ensures ApartFrom(i, c.running) { ProcsApart(i, c.running); }
      running.StopThread(tf, m);
      NextProcess(c.running);
      model := Yield(model, tf);
      forall i: nat | i < |c.procs| ensures ProcAt(i) {
        assert old(ProcAt(i));
        if i == c.running {
          assert model.procs[i] == m' && running.Is(m');
        } else {
          assert old(ApartFrom(i, c.running));
          processq.elems[i].item.StillIs(c.procs[i]);
        }
      }
    }

    /** sched_yield, line 148 */
    method StartRunning(ghost tf: Trapframe)
      requires Valid() && model.procs != [] && Current(model).startup
      modifies this`model, runningProcess.item.runningThread.item`flags
      ensures Valid() && model == Yield(old(model), tf)
    {
      ghost var c, m := model, RunningProc(model);
      assert ProcAt(c.running);
      var thread := runningProcess.item.runningThread.item;
      assert runningProcess.item.ThreadAt(m, m.running);
      StartupCleared(thread.flags);
      thread.flags := And(thread.flags, Not(THREAD_STARTUP));
      model := Yield(model, tf);
      forall i: nat | i < |c.procs| ensures ProcAt(i) {
        assert old(ProcAt(i));
        ghost var p := processq.elems[i].item;
        forall j: nat | j < |c.procs[i].threads| ensures p.ThreadAt(model.procs[i], j) {
          assert old(p.ThreadAt(c.procs[i], j));
        }
      }
    }

    /** Processes k and i of the core have no threads, elements or queues in common. */
    ghost predicate ApartFrom(k: nat, i: nat)
      reads *
      requires k < |processq.elems| && i < |processq.elems|
    {
      var p, q := processq.elems[k].item, processq.elems[i].item;
      && p != q && p.threadq != q.threadq
      && forall e {:trigger e in p.threadq.elems} :: e in p.threadq.elems ==>
           e !in q.threadq.elems && e.item.parent == p
    }

    lemma ProcsApart(k: nat, i: nat)
      requires Valid() && k < |processq.elems| && i < |processq.elems| && k != i
      ensures ApartFrom(k, i)
    {
      var p, q := processq.elems[k].item, processq.elems[i].item;
      assert ProcAt(k) && ProcAt(i);
      p.OwnsThreads(model.procs[k]);
      q.OwnsThreads(model.procs[i]);
      assert p.threadq.elems[0] in p.threadq.elems;
    }

    /** enqueue_thread, for a process of this core */
    method EnqueueThread(parent: Process, thread: Elem<Thread>, ghost i: nat)
      requires Valid() && i < |processq.elems| && processq.elems[i].item == parent
      requires thread !in parent.threadq.elems && thread.item.parent == parent && thread.item.flags < WORD_MOD
      requires forall e :: e in parent.threadq.elems ==> e.item != thread.item
      modifies this`model, parent.threadq, parent.threadq.elems, thread, parent`threadCount, thread.item`at
      ensures Valid() && parent.threadq.elems == old(parent.threadq.elems) + [thread]
      ensures var t := ThreadState(thread.item.tf, And(thread.item.flags, THREAD_STARTUP) != 0);
              model == Apply(old(model), AddThread(i, t))
    {
      ghost var c := model;
      assert ProcAt(i);
      forall k: nat | k < |c.procs| && k != i ensures ApartFrom(k, i) { ProcsApart(k, i); }
      parent.AddThread(thread, c.procs[i]);
      model := Apply(c, AddThread(i, ThreadState(thread.item.tf, And(thread.item.flags, THREAD_STARTUP) != 0)));
      forall k: nat | k < |c.procs| ensures ProcAt(k) {
        assert old(ProcAt(k));
        if k != i {
          assert old(ApartFrom(k, i));
          processq.elems[k].item.StillIs(c.procs[k]);
        }
      }
    }

    /** enqueue_process, on the core that sched_core chose */
    method EnqueueProcess(p: Elem<Process>, ghost m: ProcState)
      requires Valid() && p.item.Is(m) && p !in processq.elems && p.item.home == null
      modifies this, processq, processq.elems, p, p.item`at, p.item`home, p.item.runningThread.item`flags
      ensures Valid() && model == Apply(old(model), AddProcess(m)) && p.item.home == this
      ensures processq.elems == old(processq.elems) + [p]
    {
      ghost var c := model;
      Append(p, m);
      assert ProcAt(|c.procs|);
      if runningProcess == null {
        runningProcess := p;
        p.item.MarkStartup(m);
        model := Apply(c, AddProcess(m));
        assert ProcAt(0);
      }
    }

    method Append(p: Elem<Process>, ghost m: ProcState)
      requires Valid() && p.item.Is(m) && p !in processq.elems && p.item.home == null
      modifies this`model, processq, processq.elems, p, p.item`at, p.item`home
      ensures processq.Valid() && processq.elems == old(processq.elems) + [p] && p.item.home == this && p.item.Is(m)
      ensures model == old(model).(procs := old(model).procs + [m])
      ensures forall i: nat {:trigger ProcAt(i)} :: i < |model.procs| ==> ProcAt(i)
    {
      ghost var c := model;
      processq.InsertTail(p);
      p.item.at, p.item.home := |c.procs|, this;
      model := c.(procs := c.procs + [m]);
      forall k: nat | k < |model.procs| ensures ProcAt(k) {
        if k < |c.procs| {
          assert old(ProcAt(k));
          processq.elems[k].item.StillIs(c.procs[k]);
        }
      }
    }
  }

  /** The cores, and the one that the next process goes to. */
  class CoreList {
    const cores: seq<Core>
    var currentCoreIdx: nat

    constructor (cores: seq<Core>)
      ensures this.cores == cores && currentCoreIdx == 0
    {
      this.cores, this.currentCoreIdx := cores, 0;
    }

    /** sched_core */
    method SchedCore() returns (core: Core)
      requires currentCoreIdx < |cores|
      modifies this
      ensures core == cores[old(currentCoreIdx)] && currentCoreIdx == (old(currentCoreIdx) + 1) % |cores|
    {
      core := cores[currentCoreIdx];
      currentCoreIdx := (currentCoreIdx + 1) % |cores|;
    }

    /** enqueue_process: processes go to the cores in turn */
    method EnqueueProcess(p: Elem<Process>, ghost m: ProcState) returns (core: Core)
      requires currentCoreIdx < |cores| && cores[currentCoreIdx].Valid()
      requires p.item.Is(m) && p !in cores[currentCoreIdx].processq.elems && p.item.home == null
      modifies this, cores[currentCoreIdx], cores[currentCoreIdx].processq, cores[currentCoreIdx].processq.elems
      modifies p, p.item`at, p.item`home, p.item.runningThread.item`flags
      ensures core == cores[old(currentCoreIdx)] && currentCoreIdx == (old(currentCoreIdx) + 1) % |cores|
      ensures core.Valid() && p.item.home == core
      ensures core.processq.elems == old(cores[currentCoreIdx].processq.elems) + [p]
      ensures core.model == Apply(old(cores[currentCoreIdx].model), AddProcess(m))
    {
      core := SchedCore();
      forall i: nat | i < |core.model.procs| ensures core.ProcAt(i) { assert old(cores[currentCoreIdx].ProcAt(i)); }
      core.EnqueueProcess(p, m);
    }
  }

  /** What can happen on a core: a timer interrupt, a new thread of a process, a new process. */
  datatype Request =
    | Tick(tf: Trapframe)
    | NewThread(parent: Process, thread: Elem<Thread>)
    | NewProcess(process: Elem<Process>)

  /** The event of the sequence machine that a request is: i is the place of the thread's process in
      the queue, m the state of the new process. */
  ghost function EventOf(r: Request, i: nat, m: ProcState): Event
    reads if r.NewThread? then {r.thread.item} else {}
  {
    match r
    case Tick(tf) => Interrupt(tf)
    case NewThread(_, e) => AddThread(i, ThreadState(e.item.tf, And(e.item.flags, THREAD_STARTUP) != 0))
    case NewProcess(_) => AddProcess(m)
  }

  ghost predicate Ready(core: Core, r: Request, i: nat, m: ProcState)
    reads *
  {
    match r
    case Tick(_) => core.model.procs != []
    case NewThread(parent, e) =>
      && i < |core.processq.elems| && core.processq.elems[i].item == parent
      && e !in parent.threadq.elems && e.item.parent == parent && e.item.flags < WORD_MOD
      && forall f :: f in parent.threadq.elems ==> f.item != e.item
    case NewProcess(p) => p.item.Is(m) && p !in core.processq.elems && p.item.home == null
  }

  /** Whatever happens on a core is an event of the sequence machine: with this, each run of the code
      is a Trace, and what is proved of every Trace holds of the code. */
  method Do(core: Core, r: Request, ghost i: nat, ghost m: ProcState) returns (resumed: Trapframe)
    requires core.Valid() && Ready(core, r, i, m)
    modifies core
    modifies if r.Tick? && core.runningProcess != null then {core.runningProcess.item} else {}
    modifies if r.Tick? && core.runningProcess != null then {core.runningProcess.item.runningThread.item} else {}
    modifies if r.NewThread? then {r.parent, r.parent.threadq, r.thread, r.thread.item} else {}
    modifies if r.NewThread? then r.parent.threadq.elems else []
    modifies if r.NewProcess? then {core.processq, r.process, r.process.item} else {}
    modifies if r.NewProcess? then {r.process.item.runningThread.item} else {}
    modifies if r.NewProcess? then core.processq.elems else []
    ensures core.Valid() && EventOk(old(core.model), old(EventOf(r, i, m)))
    ensures core.model == Apply(old(core.model), old(EventOf(r, i, m)))
    ensures r.Tick? ==> core.model.procs != [] && resumed == Current(core.model).tf
  {
    resumed := Trapframe([]);
    match r {
      case Tick(tf) => resumed := core.SchedYield(tf);
      case NewThread(parent, e) =>
        core.EnqueueThread(parent, e, i);
      case NewProcess(p) =>
        core.EnqueueProcess(p, m);
    }
  }

  lemma TwoThreads(a: Trapframe, b: Trapframe)
    ensures var m := ProcState([ThreadState(a, false)], 0);
            var c := Apply(CoreState([], 0), AddProcess(m));
            && c == CoreState([ProcState([ThreadState(a, true)], 0)], 0)
            && Apply(c, AddThread(0, ThreadState(b, And(0, THREAD_STARTUP) != 0)))
               == CoreState([ProcState([ThreadState(a, true), ThreadState(b, false)], 0)], 0)
  {
    var m := ProcState([ThreadState(a, false)], 0);
    assert Started(m) == ProcState([ThreadState(a, true)], 0);
    assert [ThreadState(a, true)] + [ThreadState(b, false)] == [ThreadState(a, true), ThreadState(b, false)];
  }

  /** sched_start, up to the timer, on a core without a process: the idle process with its main thread,
      marked for starting, and the second thread. */
  method SchedStart(list: CoreList, idle: Trapframe, testFunc: Trapframe) returns (core: Core)
    requires list.currentCoreIdx < |list.cores|
    requires var c := list.cores[list.currentCoreIdx]; c.Valid() && c.model.procs == []
    modifies list, list.cores[list.currentCoreIdx], list.cores[list.currentCoreIdx].processq
    ensures core == list.cores[old(list.currentCoreIdx)] && core.Valid()
    ensures core.model == CoreState([ProcState([ThreadState(idle, true), ThreadState(testFunc, false)], 0)], 0)
  {
    var p := CreateProcess(idle);
    ghost var m := ProcState([ThreadState(idle, false)], 0);
    var e := new Elem(p);
    core := list.EnqueueProcess(e, m);
    TwoThreads(idle, testFunc);
    var thread := new Thread(testFunc, p);
    var t := new Elem(thread);
    core.EnqueueThread(p, t, 0);
  }

  /** flags | THREAD_STARTUP */
  lemma StartupSet(flags: nat)
    requires flags < WORD_MOD
    ensures Or(flags, THREAD_STARTUP) < WORD_MOD && And(Or(flags, THREAD_STARTUP), THREAD_STARTUP) == 1
  {
    var f := Or(flags, 1);
    assert f % 2 == 1 && f / 2 == flags / 2 by {
      if flags != 0 { assert Or(flags / 2, 0) == flags / 2; }
    }
    assert And(f / 2, 0) == 0;
  }

  /** flags & ~THREAD_STARTUP */
  lemma StartupCleared(flags: nat)
    requires flags < WORD_MOD
    ensures And(flags, Not(THREAD_STARTUP)) < WORD_MOD && And(And(flags, Not(THREAD_STARTUP)), THREAD_STARTUP) == 0
  {
    var f := And(flags, Not(THREAD_STARTUP));
    assert Not(THREAD_STARTUP) % 2 == 0;
    assert f % 2 == 0;
  }
}
