/** Round-robin scheduling of processes and of the threads in each, as a machine on sequences:
    which thread runs when, and with which trapframe. sys/sched/sched.c refines it. */
module Turns {
  import opened Bits

  datatype Trapframe = Trapframe(words: seq<nat>)

  /** A thread: where it was stopped, and whether the next yield only starts it. */
  datatype ThreadState = ThreadState(tf: Trapframe, startup: bool)

  /** The threads of a process in queue order, and the one it runs. */
  datatype ProcState = ProcState(threads: seq<ThreadState>, running: nat)

  /** The processes of a core in queue order, and the one it runs if there is any. */
  datatype CoreState = CoreState(procs: seq<ProcState>, running: nat)

  predicate ProcOk(p: ProcState) {
    p.running < |p.threads|
  }

  predicate CoreOk(c: CoreState) {
    && (if c.procs == [] then c.running == 0 else c.running < |c.procs|)
    && forall i :: 0 <= i < |c.procs| ==> ProcOk(c.procs[i])
  }

  predicate Runs(c: CoreState) {
    CoreOk(c) && c.procs != []
  }

  predicate HasThread(c: CoreState, i: nat, j: nat) {
    i < |c.procs| && j < |c.procs[i].threads|
  }

  function RunningProc(c: CoreState): ProcState
    requires Runs(c)
  {
    c.procs[c.running]
  }

  function Current(c: CoreState): ThreadState
    requires Runs(c)
  {
    RunningProc(c).threads[RunningProc(c).running]
  }

  predicate IsCurrent(c: CoreState, i: nat, j: nat)
    requires Runs(c)
  {
    c.running == i && RunningProc(c).running == j
  }

  /** One yield of the core, interrupted with trapframe tf: the thread's first yield starts it; any
      other saves its trapframe and passes the turn, within the process and on the core. */
  function Yield(c: CoreState, tf: Trapframe): (c': CoreState)
    requires Runs(c)
    ensures Runs(c') && |c'.procs| == |c.procs|
  {
    var p := RunningProc(c);
    if Current(c).startup then
      c.(procs := c.procs[c.running := p.(threads := p.threads[p.running := Current(c).(startup := false)])])
    else
      var p' := ProcState(p.threads[p.running := Current(c).(tf := tf)], (p.running + 1) % |p.threads|);
      CoreState(c.procs[c.running := p'], (c.running + 1) % |c.procs|)
  }

  // ---------- fairness ----------

  /** No thread is waiting to be started. */
  ghost predicate Settled(c: CoreState) {
    forall i: nat, j: nat :: HasThread(c, i, j) ==> !c.procs[i].threads[j].startup
  }

  function Yields(c: CoreState, tfs: seq<Trapframe>): (c': CoreState)
    requires Runs(c)
    ensures Runs(c') && |c'.procs| == |c.procs|
  {
    if tfs == [] then c else Yield(Yields(c, tfs[..|tfs| - 1]), tfs[|tfs| - 1])
  }

  /** How far round the core process i is from the running one. */
  function Distance(c: CoreState, i: nat): (d: nat)
    requires Runs(c) && i < |c.procs|
    ensures d < |c.procs|
  {
    if i >= c.running then i - c.running else i + |c.procs| - c.running
  }

  /** How many of the first t turns fall to the process at the given distance, of n. */
  function TurnsTaken(distance: nat, n: nat, t: nat): nat
    requires distance < n
  {
    (t + (n - 1 - distance)) / n
  }

  lemma TurnPasses(distance: nat, n: nat, t: nat)
    requires distance < n
    ensures TurnsTaken(distance, n, t + 1) == TurnsTaken(distance, n, t) + if t % n == distance then 1 else 0
  {
    var q, r, s := t / n, t % n, n - 1 - distance;
    if r + s < n {
      DivModUnique(t + s, n, q, r + s);
      if r + s + 1 < n { DivModUnique(t + 1 + s, n, q, r + s + 1); } else { NextQuotient(t + 1 + s, n, q, 0); }
    } else {
      NextQuotient(t + s, n, q, r + s - n);
      NextQuotient(t + 1 + s, n, q, r + s + 1 - n);
    }
  }

  lemma NextQuotient(a: int, n: int, q: int, r: int)
    requires n > 0 && a == n * q + n + r && 0 <= r < n
    ensures a / n == q + 1 && a % n == r
  {
    assert n * (q + 1) == n * q + n;
    DivModUnique(a, n, q + 1, r);
  }

  lemma IncMod(a: nat, n: nat)
    requires n > 0
    ensures (a % n + 1) % n == (a + 1) % n
  {
    var q, r := a / n, a % n;
    if r + 1 < n {
      DivModUnique(a + 1, n, q, r + 1);
      DivModUnique(r + 1, n, 0, r + 1);
    } else {
      NextQuotient(a + 1, n, q, 0);
      NextQuotient(r + 1, n, 0, 0);
    }
  }

  /** The running process after t turns is the one at distance t % n. */
  lemma RunningAtDistance(c: CoreState, t: nat, i: nat)
    requires Runs(c) && i < |c.procs|
    ensures (c.running + t) % |c.procs| == i <==> t % |c.procs| == Distance(c, i)
  {
    var n := |c.procs|;
    var q, r := t / n, t % n;
    assert n * q + r == t;
    if c.running + r < n {
      DivModUnique(c.running + t, n, q, c.running + r);
    } else {
      NextQuotient(c.running + t, n, q, c.running + r - n);
    }
  }

  /** Where the process and thread turns are after t yields of a settled core. */
  ghost predicate TurnsAre(c: CoreState, c': CoreState, t: nat)
    requires Runs(c) && Runs(c')
  {
    && |c'.procs| == |c.procs| && c'.running == (c.running + t) % |c.procs|
    && forall i {:trigger ProcTurn(c, c', t, i)} :: 0 <= i < |c.procs| ==> ProcTurn(c, c', t, i)
  }

  ghost predicate ProcTurn(c: CoreState, c': CoreState, t: nat, i: nat)
    requires Runs(c) && |c'.procs| == |c.procs| && i < |c.procs|
  {
    && |c'.procs[i].threads| == |c.procs[i].threads| > 0
    && c'.procs[i].running == (c.procs[i].running + TurnsTaken(Distance(c, i), |c.procs|, t)) % |c.procs[i].threads|
    && forall j :: 0 <= j < |c.procs[i].threads| ==> !c'.procs[i].threads[j].startup
  }

  lemma {:induction false} TurnsAfter(c: CoreState, tfs: seq<Trapframe>)
    requires Runs(c) && Settled(c)
    ensures TurnsAre(c, Yields(c, tfs), |tfs|)
  {
    var n := |c.procs|;
    if tfs == [] {
      DivModUnique(c.running, n, 0, c.running);
      forall i | 0 <= i < n ensures ProcTurn(c, c, 0, i) {
        DivModUnique(n - 1 - Distance(c, i), n, 0, n - 1 - Distance(c, i));
        assert ProcOk(c.procs[i]);
        DivModUnique(c.procs[i].running, |c.procs[i].threads|, 0, c.procs[i].running);
        forall j | 0 <= j < |c.procs[i].threads| ensures !c.procs[i].threads[j].startup { assert HasThread(c, i, j); }
      }
    } else {
      var t := |tfs| - 1;
      TurnsAfter(c, tfs[..t]);
      OneTurn(c, Yields(c, tfs[..t]), t, tfs[t]);
    }
  }

  lemma OneTurn(c: CoreState, c1: CoreState, t: nat, tf: Trapframe)
    requires Runs(c) && Runs(c1) && TurnsAre(c, c1, t)
    ensures TurnsAre(c, Yield(c1, tf), t + 1)
  {
    assert ProcTurn(c, c1, t, c1.running);
    var c2, t2 := Yield(c1, tf), t + 1;
    IncMod(c.running + t, |c.procs|);
    forall i: nat | i < |c.procs| ensures ProcTurn(c, c2, t2, i) { OneTurnOf(c, c1, t, tf, i); }
  }

  lemma OneTurnOf(c: CoreState, c1: CoreState, t: nat, tf: Trapframe, i: nat)
    requires Runs(c) && Runs(c1) && TurnsAre(c, c1, t) && i < |c.procs|
    ensures ProcTurn(c, Yield(c1, tf), t + 1, i)
  {
    assert ProcTurn(c, c1, t, c1.running);
    assert ProcTurn(c, c1, t, i);
    RunningAtDistance(c, t, i);
    TurnPasses(Distance(c, i), |c.procs|, t);
    IncMod(c.procs[i].running + TurnsTaken(Distance(c, i), |c.procs|, t), |c.procs[i].threads|);
  }

  /** After d yields the turn is thread j's of process i. */
  ghost predicate DispatchedAt(c: CoreState, tfs: seq<Trapframe>, d: nat, i: nat, j: nat)
    requires Runs(c) && d <= |tfs|
  {
    IsCurrent(Yields(c, tfs[..d]), i, j)
  }

  /** When a process of k threads gets a turn for the m-th time: after distance + m * n yields, for
      its thread m places after the first. */
  lemma TurnOfProc(c: CoreState, tfs: seq<Trapframe>, d: nat, i: nat) returns (m: nat)
    requires Runs(c) && Settled(c) && d <= |tfs| && i < |c.procs| && Yields(c, tfs[..d]).running == i
    ensures d == Distance(c, i) + m * |c.procs| && |c.procs[i].threads| > 0
    ensures Yields(c, tfs[..d]).procs[i].running == (c.procs[i].running + m) % |c.procs[i].threads|
  {
    TurnsAfter(c, tfs[..d]);
    RunningAtDistance(c, d, i);
    m := TurnsAtOwnTurn(Distance(c, i), |c.procs|, d);
    assert ProcTurn(c, Yields(c, tfs[..d]), d, i);
  }

  lemma TurnsAtOwnTurn(distance: nat, n: nat, d: nat) returns (m: nat)
    requires distance < n && d % n == distance
    ensures d == distance + m * n && TurnsTaken(distance, n, d) == m
  {
    var q: int := d / n;
    assert d == n * q + distance;
    if q < 0 { MulAtLeast(n, -q); }
    m := q;
    DivModUnique(d + (n - 1 - distance), n, q, n - 1);
  }

  lemma TurnComes(c: CoreState, tfs: seq<Trapframe>, m: nat, i: nat)
    requires Runs(c) && Settled(c) && i < |c.procs| && Distance(c, i) + m * |c.procs| <= |tfs|
    ensures var d, k := Distance(c, i) + m * |c.procs|, |c.procs[i].threads|;
            k > 0 && DispatchedAt(c, tfs, d, i, (c.procs[i].running + m) % k)
  {
    var n, d := |c.procs|, Distance(c, i) + m * |c.procs|;
    TurnsAfter(c, tfs[..d]);
    DivModUnique(d, n, m, Distance(c, i));
    RunningAtDistance(c, d, i);
    var m' := TurnOfProc(c, tfs, d, i);
    assert m' * n == m * n;
    DivModUnique(d, n, m', Distance(c, i));
  }

  /** Fairness: of any n * k yields in a row of a core with n processes, each thread of a process
      with k threads gets the turn after exactly one. */
  lemma EachThreadOnce(c: CoreState, tfs: seq<Trapframe>, i: nat, j: nat) returns (d: nat)
    requires Runs(c) && Settled(c) && HasThread(c, i, j)
    requires |tfs| == |c.procs| * |c.procs[i].threads|
    ensures 1 <= d <= |tfs| && DispatchedAt(c, tfs, d, i, j)
    ensures forall e :: 1 <= e <= |tfs| && DispatchedAt(c, tfs, e, i, j) ==> e == d
  {
    var n, k, r, a := |c.procs|, |c.procs[i].threads|, c.procs[i].running, Distance(c, i);
    assert ProcOk(c.procs[i]);
    var m := TurnFor(a, n, k, r, j);
    d := a + m * n;
    TurnComes(c, tfs, m, i);
    forall e | 1 <= e <= |tfs| && DispatchedAt(c, tfs, e, i, j) ensures e == d {
      var m' := TurnOfProc(c, tfs, e, i);
      OnlyTurn(a, n, k, r, j, m, m');
    }
  }

  lemma TurnFor(distance: nat, n: nat, k: nat, r: nat, j: nat) returns (m: nat)
    requires distance < n && r < k && j < k
    ensures 1 <= distance + m * n <= n * k && (r + m) % k == j
  {
    m := if j >= r then j - r else j + k - r;
    if m == 0 && distance == 0 { m := k; }
    WithinRounds(distance, n, k, m);
    ThreadOfTurn(r, k, m, j);
  }

  lemma OnlyTurn(distance: nat, n: nat, k: nat, r: nat, j: nat, m: nat, m': nat)
    requires distance < n && r < k && j < k
    requires 1 <= distance + m * n <= n * k && (r + m) % k == j
    requires 1 <= distance + m' * n <= n * k && (r + m') % k == j
    ensures m == m'
  {
    WithinRounds(distance, n, k, m);
    WithinRounds(distance, n, k, m');
    ThreadOfTurn(r, k, m, j);
    ThreadOfTurn(r, k, m', j);
  }

  /** The turns of one round of k visits at this distance. */
  lemma WithinRounds(distance: nat, n: nat, k: nat, m: nat)
    requires distance < n && k > 0
    ensures 1 <= distance + m * n <= n * k <==> if distance == 0 then 1 <= m <= k else m < k
  {
    var x, y := m * n, n * k;
    if m < k {
      MulAtLeast(n, k - m);
      assert n * (k - m) == y - x;
    } else if m > k {
      MulAtLeast(n, m - k);
      assert n * (m - k) == x - y;
    }
    if m > 0 { MulAtLeast(n, m); }
  }

  lemma ThreadOfTurn(r: nat, k: nat, m: nat, j: nat)
    requires r < k && j < k && m <= k
    ensures (r + m) % k == j <==> m == (if j >= r then j - r else j + k - r) || (j == r && m == k)
  {
    if r + m < k {
      DivModUnique(r + m, k, 0, r + m);
    } else if r + m < 2 * k {
      DivModUnique(r + m, k, 1, r + m - k);
    } else {
      assert false;
    }
  }

  // ---------- runs in which processes and threads arrive ----------

  datatype Event =
    | Interrupt(tf: Trapframe)
    | AddThread(proc: nat, thread: ThreadState)
    | AddProcess(process: ProcState)

  predicate EventOk(c: CoreState, e: Event) {
    CoreOk(c) && match e
    case Interrupt(_) => c.procs != []
    case AddThread(i, _) => i < |c.procs|
    case AddProcess(p) => ProcOk(p)
  }

  /** The first process of a core is the one it runs, and its thread is to be started. */
  function Started(p: ProcState): ProcState
    requires ProcOk(p)
  {
    p.(threads := p.threads[p.running := p.threads[p.running].(startup := true)])
  }

  function Apply(c: CoreState, e: Event): (c': CoreState)
    requires EventOk(c, e)
    ensures CoreOk(c')
  {
    match e
    case Interrupt(tf) => Yield(c, tf)
    case AddThread(i, t) => c.(procs := c.procs[i := c.procs[i].(threads := c.procs[i].threads + [t])])
    case AddProcess(p) => c.(procs := c.procs + [if c.procs == [] then Started(p) else p])
  }

  /** A thread that is still to be started is the one whose turn it is. */
  ghost predicate OnlyCurrentStarts(c: CoreState)
    requires CoreOk(c)
  {
    forall i: nat, j: nat {:trigger HasThread(c, i, j)} ::
      HasThread(c, i, j) && c.procs[i].threads[j].startup ==> IsCurrent(c, i, j)
  }

  /** What arrives is not marked for starting. */
  ghost predicate Unmarked(e: Event) {
    match e
    case Interrupt(_) => true
    case AddThread(_, t) => !t.startup
    case AddProcess(p) => forall j :: 0 <= j < |p.threads| ==> !p.threads[j].startup
  }

  /** Only the yield that starts a core's first thread is special: after any yield no thread is to be
      started, and none becomes so unless the core was empty. */
  lemma StartupIsOnce(c: CoreState, e: Event)
    requires EventOk(c, e) && OnlyCurrentStarts(c) && Unmarked(e)
    ensures OnlyCurrentStarts(Apply(c, e))
    ensures e.Interrupt? || (Settled(c) && c.procs != []) ==> Settled(Apply(c, e))
  {
    var c' := Apply(c, e);
    forall i: nat, j: nat | HasThread(c', i, j)
      ensures c'.procs[i].threads[j].startup ==> IsCurrent(c', i, j)
      ensures e.Interrupt? || (Settled(c) && c.procs != []) ==> !c'.procs[i].threads[j].startup
    {
      assert HasThread(c, i, j) ==> ProcOk(c.procs[i]);
    }
  }

  /** The start of a core: given its first process and interrupted, it runs that process as it came,
      whatever the trapframe that was interrupted. */
  lemma FirstYieldStarts(c: CoreState, p: ProcState, tf: Trapframe)
    requires CoreOk(c) && c.procs == [] && ProcOk(p) && Unmarked(AddProcess(p))
    ensures Yield(Apply(c, AddProcess(p)), tf) == CoreState([p], 0)
  {
    var started := Started(p);
    assert Apply(c, AddProcess(p)).procs == [started];
    assert started.threads[p.running := p.threads[p.running]] == p.threads;
  }

  ghost predicate Trace(states: seq<CoreState>, events: seq<Event>) {
    && |states| == |events| + 1
    && forall k {:trigger events[k]} :: 0 <= k < |events| ==>
         EventOk(states[k], events[k]) && states[k + 1] == Apply(states[k], events[k])
  }

  /** Event e takes the processor from thread j of process i. */
  predicate Preempts(c: CoreState, e: Event, i: nat, j: nat)
    requires EventOk(c, e)
  {
    e.Interrupt? && !Current(c).startup && IsCurrent(c, i, j)
  }

  ghost predicate NotPreempted(states: seq<CoreState>, events: seq<Event>, s: nat, t: nat, i: nat, j: nat)
    requires Trace(states, events) && t <= |events|
  {
    forall k {:trigger events[k]} :: s <= k < t ==> !Preempts(states[k], events[k], i, j)
  }

  /** Whatever happens to others, a thread's trapframe stays while it is not preempted. */
  lemma {:induction false} FrameKept(states: seq<CoreState>, events: seq<Event>, s: nat, t: nat, i: nat, j: nat)
    requires Trace(states, events) && s <= t <= |events| && NotPreempted(states, events, s, t, i, j)
    requires HasThread(states[s], i, j)
    ensures HasThread(states[t], i, j) && states[t].procs[i].threads[j].tf == states[s].procs[i].threads[j].tf
  {
    if s < t {
      FrameKept(states, events, s, t - 1, i, j);
      assert EventOk(states[t - 1], events[t - 1]) && states[t] == Apply(states[t - 1], events[t - 1]);
      assert !Preempts(states[t - 1], events[t - 1], i, j);
    }
  }

  /** A thread resumes with exactly the trapframe of its last preemption. */
  lemma ResumesWherePreempted(states: seq<CoreState>, events: seq<Event>, s: nat, t: nat, i: nat, j: nat)
    requires Trace(states, events) && s < t <= |events| && NotPreempted(states, events, s + 1, t, i, j)
    requires Preempts(states[s], events[s], i, j)
    requires Runs(states[t]) && IsCurrent(states[t], i, j)
    ensures Current(states[t]).tf == events[s].tf
  {
    assert states[s + 1] == Apply(states[s], events[s]);
    assert ProcOk(states[s].procs[i]);
    FrameKept(states, events, s + 1, t, i, j);
  }

  /** Event e brings thread j of process i, with trapframe tf. */
  ghost predicate Creates(c: CoreState, e: Event, i: nat, j: nat, tf: Trapframe)
    requires EventOk(c, e)
  {
    match e
    case Interrupt(_) => false
    case AddThread(p, t) => p == i && j == |c.procs[i].threads| && t.tf == tf
    case AddProcess(p) => i == |c.procs| && j < |p.threads| && p.threads[j].tf == tf
  }

  /** Where threads are after an event: each one is in its place, with its startup mark unless the
      event is a yield, and a turn passes at yields only. */
  lemma ThreadsStay(c: CoreState, e: Event, i: nat, j: nat)
    requires EventOk(c, e) && HasThread(c, i, j)
    ensures HasThread(Apply(c, e), i, j)
    ensures !e.Interrupt? && c.procs != [] ==>
              && Apply(c, e).procs[i].threads[j] == c.procs[i].threads[j]
              && Apply(c, e).procs[i].running == c.procs[i].running && Apply(c, e).running == c.running
  {
  }

  /** A thread that arrives is the last of its process, one that a process brings keeps its place in it,
      and nothing else arrives. */
  lemma ThreadArrives(c: CoreState, e: Event, i: nat, j: nat)
    requires EventOk(c, e)
    ensures var c' := Apply(c, e);
            match e
            case Interrupt(_) => HasThread(c', i, j) <==> HasThread(c, i, j)
            case AddThread(p, t) =>
              && (HasThread(c', i, j) <==> HasThread(c, i, j) || (i == p && j == |c.procs[p].threads|))
              && c'.procs[p].threads[|c.procs[p].threads|] == t
            case AddProcess(p) =>
              && (HasThread(c', i, j) <==> HasThread(c, i, j) || (i == |c.procs| && j < |p.threads|))
              && |c'.procs| == |c.procs| + 1 && c'.procs[|c.procs|].running == p.running
              && (j < |p.threads| ==>
                    c'.procs[|c.procs|].threads[j]
                    == if c.procs == [] && j == p.running then p.threads[j].(startup := true) else p.threads[j])
  {
  }

  lemma {:induction false} FrameInYields(c: CoreState, tfs: seq<Trapframe>, d: nat, i: nat, j: nat)
    requires Runs(c) && HasThread(c, i, j) && d <= |tfs|
    requires forall e :: 0 <= e < d ==> !DispatchedAt(c, tfs, e, i, j)
    ensures HasThread(Yields(c, tfs[..d]), i, j)
    ensures Yields(c, tfs[..d]).procs[i].threads[j].tf == c.procs[i].threads[j].tf
  {
    if d > 0 {
      FrameInYields(c, tfs, d - 1, i, j);
      assert tfs[..d][..d - 1] == tfs[..d - 1];
      assert !DispatchedAt(c, tfs, d - 1, i, j);
    }
  }

  /** A thread that is added gets its turn exactly once in as many yields as there are processes, times
      the threads its process then has, and it starts with the trapframe it came with. */
  lemma NewThreadRuns(c: CoreState, i: nat, t: ThreadState, tfs: seq<Trapframe>) returns (d: nat)
    requires Runs(c) && Settled(c) && i < |c.procs| && !t.startup
    requires |tfs| == |c.procs| * (|c.procs[i].threads| + 1)
    ensures var c', j := Apply(c, AddThread(i, t)), |c.procs[i].threads|;
            && 1 <= d <= |tfs| && DispatchedAt(c', tfs, d, i, j) && Current(Yields(c', tfs[..d])).tf == t.tf
            && forall e :: 1 <= e <= |tfs| && DispatchedAt(c', tfs, e, i, j) ==> e == d
  {
    var c', j := Apply(c, AddThread(i, t)), |c.procs[i].threads|;
    StartupIsOnce(c, AddThread(i, t));
    ThreadArrives(c, AddThread(i, t), i, j);
    d := EachThreadOnce(c', tfs, i, j);
    assert ProcOk(c.procs[i]);
    assert !DispatchedAt(c', tfs, 0, i, j);
    FrameInYields(c', tfs, d, i, j);
  }

  /** A thread that was never preempted starts with the trapframe it was created with. */
  lemma StartsFromCreation(states: seq<CoreState>, events: seq<Event>, s: nat, t: nat, i: nat, j: nat, tf: Trapframe)
    requires Trace(states, events) && s < t <= |events| && NotPreempted(states, events, s + 1, t, i, j)
    requires Creates(states[s], events[s], i, j, tf)
    requires Runs(states[t]) && IsCurrent(states[t], i, j)
    ensures Current(states[t]).tf == tf
  {
    assert states[s + 1] == Apply(states[s], events[s]);
    FrameKept(states, events, s + 1, t, i, j);
  }
}
