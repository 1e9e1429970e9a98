/**
 Threads, the ready list and semaphores (threads/thread.cc, threads/scheduler.cc, threads/synch.cc)
 as a step system.  Kernel code runs with interrupts disabled, so a step is one stretch of it up to
 the next context switch or return; any interleaving of the steps of any number of threads is a run.
 */
module Kernels {
  import opened Associations

  type Thread = nat

  /** Where a thread is: outside the kernel's waiting loops, inside P on a semaphore, or done. */
  datatype Pc = Free | Waiting(sem: nat) | Finished

  /** A semaphore, with the history of its initial value, its Vs and its completed Ps. */
  datatype Sem = Sem(value: int, queue: seq<Thread>, initial: nat, vs: nat, ps: nat)

  datatype Kernel = Kernel(
    current: Thread,
    idling: bool,                  // the current thread sleeps and found nothing to run
    ready: seq<Thread>,
    sems: seq<Sem>,
    pc: map<Thread, Pc>,           // the threads that exist
    started: set<Thread>,          // those that have run; they resume inside Scheduler::Run
    toDestroy: Option<Thread>,
    dead: set<Thread>,             // deleted threads
    dispatched: seq<Thread>)       // history: the threads the scheduler switched to

  // ---- what the code does ----

  /** Scheduler::Run: switches to next, which deletes the finished thread unless it starts afresh. */
  function Dispatch(k: Kernel, next: Thread): Kernel {
    var k' := k.(current := next, idling := false, started := k.started + {next}, dispatched := k.dispatched + [next]);
    if next in k.started && k.toDestroy.Some? then
      k'.(pc := k.pc - {k.toDestroy.value}, dead := k.dead + {k.toDestroy.value}, toDestroy := None)
    else k'
  }

  /** Scheduler::FindNextToRun and Run. */
  function DispatchNext(k: Kernel): Kernel
    requires k.ready != []
  {
    Dispatch(k.(ready := k.ready[1..]), k.ready[0])
  }

  function Sleep(k: Kernel): Kernel {
    if k.ready == [] then k.(idling := true) else DispatchNext(k)
  }

  function Fork(k: Kernel, t: Thread): Kernel {
    k.(pc := k.pc[t := Free], ready := k.ready + [t])
  }

  function Yield(k: Kernel): Kernel {
    if k.ready == [] then k else DispatchNext(k.(ready := k.ready + [k.current]))
  }

  /** One round of the loop in P: take the semaphore, or join its queue and sleep. */
  function TestP(k: Kernel, s: nat): Kernel
    requires s < |k.sems|
  {
    var sem := k.sems[s];
    if sem.value == 0 then
      Sleep(k.(sems := k.sems[s := sem.(queue := sem.queue + [k.current])], pc := k.pc[k.current := Waiting(s)]))
    else
      k.(sems := k.sems[s := sem.(value := sem.value - 1, ps := sem.ps + 1)], pc := k.pc[k.current := Free])
  }

  /** V wakes the first waiter, if any, and increments the value. */
  function DoV(k: Kernel, s: nat): Kernel
    requires s < |k.sems|
  {
    var sem := k.sems[s];
    var sem' := sem.(value := sem.value + 1, vs := sem.vs + 1);
    if sem.queue == [] then k.(sems := k.sems[s := sem'])
    else k.(sems := k.sems[s := sem'.(queue := sem.queue[1..])], ready := k.ready + [sem.queue[0]])
  }

  function Finish(k: Kernel): Kernel {
    Sleep(k.(toDestroy := Some(k.current), pc := k.pc[k.current := Finished]))
  }

  datatype Step =
    | StepFork(t: Thread)
    | StepYield
    | StepP(s: nat)            // the current thread calls P
    | StepRetest               // a woken thread runs again and re-tests
    | StepV(s: nat)            // by the current thread, or by an interrupt handler
    | StepFinish
    | StepIdle                 // an idle machine finds a thread that a handler made ready

  /** Which steps the kernel can take: an idle machine only handles interrupts, and a thread that
      resumes inside P re-tests before it does anything else. */
  ghost predicate Enabled(k: Kernel, e: Step) {
    var free := !k.idling && k.current in k.pc && k.pc[k.current] == Free;
    match e
    case StepFork(t) => free && t !in k.pc && t !in k.dead && t !in k.started
    case StepYield => free
    case StepP(s) => free && s < |k.sems|
    case StepRetest => !k.idling && k.current in k.pc && k.pc[k.current].Waiting? && k.pc[k.current].sem < |k.sems|
    case StepV(s) => s < |k.sems|
    case StepFinish => free
    case StepIdle => k.idling && k.ready != []
  }

  ghost function Do(k: Kernel, e: Step): Kernel
    requires Enabled(k, e)
  {
    match e
    case StepFork(t) => Fork(k, t)
    case StepYield => Yield(k)
    case StepP(s) => TestP(k, s)
    case StepRetest => TestP(k, k.pc[k.current].sem)
    case StepV(s) => DoV(k, s)
    case StepFinish => Finish(k)
    case StepIdle => DispatchNext(k)
  }

  // ---- what every step keeps ----

  ghost predicate NoRepeats(s: seq<Thread>) {
    forall i, j :: 0 <= i < j < |s| ==> s[i] != s[j]
  }

  /** The queue t waits in, if any. */
  ghost predicate Queued(k: Kernel, t: Thread)
    requires t in k.pc
  {
    k.pc[t].Waiting? && k.pc[t].sem < |k.sems| && t in k.sems[k.pc[t].sem].queue
  }

  ghost predicate Running(k: Kernel, t: Thread) {
    t == k.current && !k.idling
  }

  /** A live thread is in exactly one place: running, on the ready list, or in a semaphore queue;
      a finished one is in none. */
  ghost predicate OnePlace(k: Kernel, t: Thread)
    requires t in k.pc
  {
    var places := (if Running(k, t) then 1 else 0) + (if t in k.ready then 1 else 0) + (if Queued(k, t) then 1 else 0);
    places == if k.pc[t] == Finished then 0 else 1
  }

  ghost predicate Threads(k: Kernel) {
    && k.current in k.pc && k.current in k.started
    && (forall t <- k.pc :: OnePlace(k, t))
    && (forall t <- k.pc :: k.pc[t].Waiting? ==> k.pc[t].sem < |k.sems| && t in k.started)
    && (forall t <- k.ready :: t in k.pc) && NoRepeats(k.ready)
  }

  ghost predicate Queues(k: Kernel) {
    forall s :: 0 <= s < |k.sems| ==>
      && NoRepeats(k.sems[s].queue)
      && forall t <- k.sems[s].queue :: t in k.pc && k.pc[t] == Waiting(s)
  }

  /** A thread is only deleted once finished, and never while current. */
  ghost predicate Destruction(k: Kernel) {
    && k.dead !! k.pc.Keys && k.dead <= k.started
    && (k.toDestroy.Some? ==>
        k.toDestroy.value in k.pc && k.pc[k.toDestroy.value] == Finished && k.toDestroy.value in k.started)
  }

  ghost predicate Structure(k: Kernel) {
    Threads(k) && Queues(k) && Destruction(k)
  }

  lemma AppendOnce(s: seq<Thread>, t: Thread)
    requires NoRepeats(s) && t !in s
    ensures NoRepeats(s + [t])
  {
  }

  lemma TailMembers(s: seq<Thread>)
    requires s != [] && NoRepeats(s)
    ensures NoRepeats(s[1..]) && s[0] !in s[1..]
    ensures forall t :: t in s <==> t == s[0] || t in s[1..]
  {
  }

  /** Dispatching the first ready thread while the current one is accounted for elsewhere. */
  lemma DispatchKeeps(k: Kernel)
    requires k.ready != [] && Structure(k.(idling := true))
    ensures Structure(DispatchNext(k))
  {
    TailMembers(k.ready);
    var next := k.ready[0];
    var k1 := k.(idling := true);
    assert OnePlace(k1, next);
    var k' := DispatchNext(k);
    forall t | t in k'.pc ensures OnePlace(k', t) {
      assert OnePlace(k1, t);
    }
  }

  lemma SleepKeeps(k: Kernel)
    requires Structure(k.(idling := true))
    ensures Structure(Sleep(k))
  {
    if k.ready != [] {
      DispatchKeeps(k);
    }
  }

  lemma ForkKeeps(k: Kernel, t: Thread)
    requires Structure(k) && Enabled(k, StepFork(t))
    ensures Structure(Fork(k, t))
  {
    var k' := Fork(k, t);
    AppendOnce(k.ready, t);
    forall u | u in k'.pc ensures OnePlace(k', u) {
      if u != t {
        assert OnePlace(k, u);
      } else {
        assert k'.ready[|k.ready|] == t;
      }
    }
  }

  lemma YieldKeeps(k: Kernel)
    requires Structure(k) && Enabled(k, StepYield)
    ensures Structure(Yield(k))
  {
    if k.ready != [] {
      var k1 := k.(ready := k.ready + [k.current], idling := true);
      assert OnePlace(k, k.current);
      AppendOnce(k.ready, k.current);
      forall u | u in k1.pc ensures OnePlace(k1, u) {
        assert OnePlace(k, u);
        assert u in k1.ready <==> u in k.ready || u == k.current;
      }
      DispatchKeeps(k.(ready := k.ready + [k.current]));
    }
  }

  lemma FinishKeeps(k: Kernel)
    requires Structure(k) && Enabled(k, StepFinish)
    ensures Structure(Finish(k))
  {
    FinishedStructure(k);
    SleepKeeps(k.(toDestroy := Some(k.current), pc := k.pc[k.current := Finished]));
  }

  /** The state in which the current thread has joined the queue and is about to sleep. */
  function Enqueued(k: Kernel, s: nat): Kernel
    requires s < |k.sems|
  {
    k.(sems := k.sems[s := k.sems[s].(queue := k.sems[s].queue + [k.current])], pc := k.pc[k.current := Waiting(s)])
  }

  ghost predicate MayTest(k: Kernel, s: nat) {
    !k.idling && k.current in k.pc && s < |k.sems| && (k.pc[k.current] == Free || k.pc[k.current] == Waiting(s))
  }

  lemma EnqueueKeeps(k: Kernel, s: nat)
    requires Structure(k) && MayTest(k, s)
    ensures Structure(Enqueued(k, s).(idling := true))
  {
    var k1 := Enqueued(k, s).(idling := true);
    assert OnePlace(k, k.current);
    var q := k.sems[s].queue;
    assert k.current !in q;
    AppendOnce(q, k.current);
    assert k1.sems[s].queue[|q|] == k.current;
    forall u | u in k1.pc ensures OnePlace(k1, u) {
      assert OnePlace(k, u);
      assert u != k.current && u in k1.sems[s].queue ==> u in q;
      assert u in q ==> u in k1.sems[s].queue;
    }
  }

  lemma TestPKeeps(k: Kernel, s: nat)
    requires Structure(k) && MayTest(k, s)
    ensures Structure(TestP(k, s))
  {
    if k.sems[s].value == 0 {
      EnqueueKeeps(k, s);
      SleepKeeps(Enqueued(k, s));
    } else {
      var k' := TestP(k, s);
      assert OnePlace(k, k.current);
      forall u | u in k'.pc ensures OnePlace(k', u) {
        assert OnePlace(k, u);
      }
    }
  }

  lemma DoVKeeps(k: Kernel, s: nat)
    requires Structure(k) && s < |k.sems|
    ensures Structure(DoV(k, s))
  {
    var k', q := DoV(k, s), k.sems[s].queue;
    if q != [] {
      TailMembers(q);
      var t := q[0];
      assert OnePlace(k, t);
      AppendOnce(k.ready, t);
      assert k'.ready[|k.ready|] == t;
    }
    forall u | u in k'.pc ensures OnePlace(k', u) {
      assert OnePlace(k, u);
    }
  }

  /** Every step keeps each thread in exactly one place and deletes only finished threads. */
  lemma StepKeepsStructure(k: Kernel, e: Step)
    requires Structure(k) && Enabled(k, e)
    ensures Structure(Do(k, e))
  {
    match e
    case StepFork(t) => ForkKeeps(k, t);
    case StepYield => YieldKeeps(k);
    case StepP(s) => TestPKeeps(k, s);
    case StepRetest => TestPKeeps(k, k.pc[k.current].sem);
    case StepV(s) => DoVKeeps(k, s);
    case StepFinish => FinishKeeps(k);
    case StepIdle => DispatchKeeps(k);
  }

  // ---- semaphores ----

  /** Threads that V has taken off the queue of s and that have not re-tested yet. */
  ghost function Woken(k: Kernel, s: nat): set<Thread>
    requires s < |k.sems|
  {
    set t | t in k.pc && k.pc[t] == Waiting(s) && t !in k.sems[s].queue
  }

  /** The value is never negative and accounts for every V and completed P; and while threads
      wait, every unit of it is matched by a woken thread, so no wakeup is lost. */
  ghost predicate Accounted(k: Kernel, s: nat)
    requires s < |k.sems|
  {
    var sem := k.sems[s];
    && sem.value >= 0 && sem.value == sem.initial + sem.vs - sem.ps
    && (sem.queue != [] ==> sem.value <= |Woken(k, s)|)
  }

  ghost predicate Semaphores(k: Kernel) {
    forall s :: 0 <= s < |k.sems| ==> Accounted(k, s)
  }

  ghost predicate Inv(k: Kernel) {
    Structure(k) && Semaphores(k)
  }

  /** Switching threads wakes nobody and forgets nobody: only finished threads disappear. */
  lemma DispatchKeepsWoken(k: Kernel, next: Thread, s: nat)
    requires Destruction(k) && s < |k.sems|
    ensures Dispatch(k, next).sems == k.sems && Woken(Dispatch(k, next), s) == Woken(k, s)
  {
  }

  lemma SleepKeepsSemaphores(k: Kernel)
    requires Destruction(k) && Semaphores(k)
    ensures Semaphores(Sleep(k))
  {
    if k.ready == [] {
      forall s | 0 <= s < |k.sems| ensures Accounted(Sleep(k), s) {
        assert Accounted(k, s) && Woken(Sleep(k), s) == Woken(k, s);
      }
    } else {
      DispatchNextKeepsSemaphores(k);
    }
  }

  lemma DispatchNextKeepsSemaphores(k: Kernel)
    requires Destruction(k) && Semaphores(k) && k.ready != []
    ensures Semaphores(DispatchNext(k))
  {
    var k1 := k.(ready := k.ready[1..]);
    forall s | 0 <= s < |k.sems| ensures Accounted(DispatchNext(k), s) {
      DispatchKeepsWoken(k1, k.ready[0], s);
      assert Accounted(k, s) && Woken(k1, s) == Woken(k, s);
    }
  }

  /** When the current thread's place in the program changes, only its old and new semaphores see it. */
  lemma PcKeepsSemaphores(k: Kernel, k': Kernel, t: Thread)
    requires Semaphores(k) && k'.sems == k.sems
    requires forall u :: u != t ==> (u in k'.pc <==> u in k.pc) && (u in k.pc ==> k'.pc[u] == k.pc[u])
    requires (t in k.pc ==> !k.pc[t].Waiting?) && (t in k'.pc ==> !k'.pc[t].Waiting?)
    ensures Semaphores(k')
  {
    forall s | 0 <= s < |k.sems| ensures Accounted(k', s) {
      assert Accounted(k, s);
      assert Woken(k', s) == Woken(k, s);
    }
  }

  /** The last half of P, or its queueing half, as seen by semaphore s itself. */
  lemma TestOwn(k: Kernel, s: nat)
    requires Inv(k) && MayTest(k, s)
    ensures k.sems[s].value == 0 ==> Accounted(Enqueued(k, s), s)
    ensures k.sems[s].value != 0 ==> Accounted(TestP(k, s), s)
  {
    assert Accounted(k, s);
    assert OnePlace(k, k.current);
    if k.sems[s].value != 0 {
      var k' := TestP(k, s);
      if k.pc[k.current] == Waiting(s) {
        assert Woken(k, s) == Woken(k', s) + {k.current};
      } else {
        assert Woken(k, s) == Woken(k', s);
      }
    }
  }

  /** No other semaphore notices. */
  lemma TestOther(k: Kernel, s: nat, o: nat)
    requires Inv(k) && MayTest(k, s) && o < |k.sems| && o != s
    ensures k.sems[s].value == 0 ==> Accounted(Enqueued(k, s), o)
    ensures k.sems[s].value != 0 ==> Accounted(TestP(k, s), o)
  {
    assert Accounted(k, o);
    if k.sems[s].value == 0 {
      assert Woken(Enqueued(k, s), o) == Woken(k, o);
    } else {
      assert Woken(TestP(k, s), o) == Woken(k, o);
    }
  }

  lemma TestPKeepsSemaphores(k: Kernel, s: nat)
    requires Inv(k) && MayTest(k, s)
    ensures Semaphores(TestP(k, s))
  {
    forall o | 0 <= o < |k.sems|
      ensures k.sems[s].value == 0 ==> Accounted(Enqueued(k, s), o)
      ensures k.sems[s].value != 0 ==> Accounted(TestP(k, s), o)
    {
      if o == s {
        TestOwn(k, s);
      } else {
        TestOther(k, s, o);
      }
    }
    if k.sems[s].value == 0 {
      EnqueueKeeps(k, s);
      SleepKeepsSemaphores(Enqueued(k, s));
    }
  }

  lemma DoVKeepsSemaphores(k: Kernel, s: nat)
    requires Inv(k) && s < |k.sems|
    ensures Semaphores(DoV(k, s))
  {
    var k', q := DoV(k, s), k.sems[s].queue;
    forall o | 0 <= o < |k.sems| ensures Accounted(k', o) {
      assert Accounted(k, o);
      if o == s && q != [] {
        TailMembers(q);
        assert Woken(k', s) == Woken(k, s) + {q[0]};
      } else {
        assert Woken(k', o) == Woken(k, o);
      }
    }
  }

  /** Every step keeps the whole invariant. */
  lemma StepKeepsInv(k: Kernel, e: Step)
    requires Inv(k) && Enabled(k, e)
    ensures Inv(Do(k, e))
  {
    StepKeepsStructure(k, e);
    match e
    case StepFork(t) => PcKeepsSemaphores(k, Fork(k, t), t);
    case StepYield =>
      if k.ready != [] {
        var k1 := k.(ready := k.ready + [k.current]);
        PcKeepsSemaphores(k, k1, k.current);
        DispatchNextKeepsSemaphores(k1);
      }
    case StepP(s) => TestPKeepsSemaphores(k, s);
    case StepRetest => TestPKeepsSemaphores(k, k.pc[k.current].sem);
    case StepV(s) => DoVKeepsSemaphores(k, s);
    case StepFinish =>
      var k1 := k.(toDestroy := Some(k.current), pc := k.pc[k.current := Finished]);
      PcKeepsSemaphores(k, k1, k.current);
      SleepKeepsSemaphores(k1);
    case StepIdle => DispatchNextKeepsSemaphores(k);
  }

  // ---- every run ----

  /** One thread running, nothing ready, fresh semaphores of any non-negative values. */
  ghost predicate Start(k: Kernel) {
    && k.pc == map[k.current := Free] && k.started == {k.current} && !k.idling
    && k.ready == [] && k.toDestroy == None && k.dead == {}
    && forall s :: 0 <= s < |k.sems| ==> k.sems[s] == Sem(k.sems[s].initial, [], k.sems[s].initial, 0, 0)
  }

  ghost predicate Run(ks: seq<Kernel>, es: seq<Step>) {
    && |ks| == |es| + 1
    && forall i {:trigger es[i]} :: 0 <= i < |es| ==> Enabled(ks[i], es[i]) && ks[i + 1] == Do(ks[i], es[i])
  }

  /** In every interleaving of any number of threads: each live thread is in exactly one place,
      deleted threads are gone, and every semaphore's value is its initial value plus the Vs minus
      the completed Ps, with no wakeup lost. */
  lemma {:induction false} RunKeepsInv(ks: seq<Kernel>, es: seq<Step>, n: nat)
    requires Run(ks, es) && Start(ks[0]) && n < |ks|
    ensures Inv(ks[n])
  {
    if n == 0 {
      StartInv(ks[0]);
    } else {
      RunKeepsInv(ks, es, n - 1);
      assert Enabled(ks[n - 1], es[n - 1]) && ks[n - 1 + 1] == Do(ks[n - 1], es[n - 1]);
      StepKeepsInv(ks[n - 1], es[n - 1]);
    }
  }

  lemma StartInv(k: Kernel)
    requires Start(k)
    ensures Inv(k)
  {
    forall s | 0 <= s < |k.sems| ensures Accounted(k, s) {
    }
  }

  /** A thread that was deleted is not current, not ready and in no queue, ever after. */
  lemma DeadStayAway(ks: seq<Kernel>, es: seq<Step>, n: nat, t: Thread, s: nat)
    requires Run(ks, es) && Start(ks[0]) && n < |ks| && t in ks[n].dead && s < |ks[n].sems|
    ensures t != ks[n].current && t !in ks[n].ready && t !in ks[n].sems[s].queue
  {
    RunKeepsInv(ks, es, n);
  }

  /** Whenever threads wait on a semaphore whose value is positive, a woken thread is on its way
      to take it: it is ready or already running. */
  lemma NoLostWakeup(ks: seq<Kernel>, es: seq<Step>, n: nat, s: nat)
    requires Run(ks, es) && Start(ks[0]) && n < |ks| && s < |ks[n].sems|
    requires ks[n].sems[s].queue != [] && ks[n].sems[s].value > 0
    ensures exists t :: t in ks[n].pc && ks[n].pc[t] == Waiting(s) && (t in ks[n].ready || Running(ks[n], t))
  {
    RunKeepsInv(ks, es, n);
    var k := ks[n];
    assert Accounted(k, s);
    var t :| t in Woken(k, s);
    assert OnePlace(k, t);
  }

  // ---- dispatch order ----

  /** The front of the ready list stays, or exactly its head is dispatched. */
  ghost predicate HeadOrNone(k: Kernel, k': Kernel) {
    || (k'.dispatched == k.dispatched && k.ready <= k'.ready)
    || (k.ready != [] && k'.dispatched == k.dispatched + [k.ready[0]] && k.ready[1..] <= k'.ready)
  }

  lemma StepIsFifo(k: Kernel, e: Step)
    requires Enabled(k, e)
    ensures HeadOrNone(k, Do(k, e))
  {
  }

  /** Of the threads that were ready, those whose turn has come were dispatched in order, and the
      rest are still at the front. */
  ghost predicate InOrder(k: Kernel, k': Kernel) {
    var n, n' := |k.dispatched|, |k'.dispatched|;
    && k.dispatched <= k'.dispatched
    && (forall i :: 0 <= i < |k.ready| && n + i < n' ==> k'.dispatched[n + i] == k.ready[i])
    && (n' - n <= |k.ready| ==> k.ready[n' - n..] <= k'.ready)
  }

  lemma OrderExtends(k: Kernel, k1: Kernel, k2: Kernel)
    requires InOrder(k, k1) && HeadOrNone(k1, k2)
    ensures InOrder(k, k2)
  {
    var d := |k1.dispatched| - |k.dispatched|;
    if k2.dispatched != k1.dispatched && d + 1 <= |k.ready| {
      assert k.ready[d..][0] == k1.ready[0];
      assert k.ready[d + 1..] == k.ready[d..][1..];
    }
  }

  /** Straight FIFO over every run: the thread at index i of the ready list is the one switched to
      at exactly the (i+1)-th dispatch from then on. */
  lemma {:induction false} DispatchInOrder(ks: seq<Kernel>, es: seq<Step>, n: nat, m: nat)
    requires Run(ks, es) && n <= m < |ks|
    ensures InOrder(ks[n], ks[m])
    decreases m
  {
    if n == m {
      OrderStarts(ks[n]);
    } else {
      DispatchInOrder(ks, es, n, m - 1);
      RunIsFifo(ks, es, m - 1);
      OrderExtends(ks[n], ks[m - 1], ks[m]);
    }
  }

  lemma OrderStarts(k: Kernel)
    ensures InOrder(k, k)
  {
    assert k.dispatched + k.ready[..0] == k.dispatched && k.ready[0..] == k.ready;
  }

  lemma RunIsFifo(ks: seq<Kernel>, es: seq<Step>, i: nat)
    requires Run(ks, es) && i < |es|
    ensures HeadOrNone(ks[i], ks[i + 1])
  {
    StepIsFifo(ks[i], es[i]);
  }

  // ---- progress ----

  /** The semaphore that a step tests, if any. */
  function Tested(k: Kernel, e: Step): Option<nat> {
    match e
    case StepP(s) => Some(s)
    case StepRetest => if k.current in k.pc && k.pc[k.current].Waiting? then Some(k.pc[k.current].sem) else None
    case _ => None
  }

  /** The steps that give up the processor: yielding, finishing, a P that finds the value zero, and the
      end of idling. */
  predicate GivesUp(k: Kernel, e: Step) {
    match e
    case StepYield => true
    case StepFinish => true
    case StepIdle => true
    case _ => var s := Tested(k, e); s.Some? && s.value < |k.sems| && k.sems[s.value].value == 0
  }

  /** The threads that a step puts at the end of the ready list: a new one, the one that V wakes, or the
      one that yields to somebody. */
  function Joins(k: Kernel, e: Step): seq<Thread> {
    match e
    case StepFork(t) => [t]
    case StepV(s) => if s < |k.sems| && k.sems[s].queue != [] then [k.sems[s].queue[0]] else []
    case StepYield => if k.ready != [] then [k.current] else []
    case _ => []
  }

  /** The head of the ready list, and nobody else, gets the processor, exactly when the step gives it
      up, and the others move up. */
  lemma StepSwitches(k: Kernel, e: Step)
    requires Enabled(k, e) && k.ready != []
    ensures var k' := Do(k, e);
            if GivesUp(k, e) then
              && k'.dispatched == k.dispatched + [k.ready[0]] && k'.current == k.ready[0] && !k'.idling
              && k'.ready == k.ready[1..] + Joins(k, e)
            else
              && k'.dispatched == k.dispatched && k'.current == k.current && k'.idling == k.idling
              && k'.ready == k.ready + Joins(k, e)
  {
    if e == StepYield {
      assert (k.ready + [k.current])[1..] == k.ready[1..] + [k.current];
    }
  }

  /** With nobody ready the thread that yields goes on, and one that sleeps or finishes leaves the
      machine idle. */
  lemma NobodyReady(k: Kernel, e: Step)
    requires Enabled(k, e) && k.ready == []
    ensures var k' := Do(k, e);
            && k'.dispatched == k.dispatched && k'.current == k.current && k'.ready == Joins(k, e)
            && (k'.idling <==> k.idling || (GivesUp(k, e) && e != StepYield))
            && (e == StepYield ==> k' == k)
  {
  }

  /** A forked thread exists from then on and, like the caller, is outside the waiting loops. */
  lemma ForkedExists(k: Kernel, t: Thread)
    requires Enabled(k, StepFork(t))
    ensures var k' := Do(k, StepFork(t));
            && k'.pc.Keys == k.pc.Keys + {t} && k'.pc[t] == Free && k'.pc[k.current] == Free && k'.started == k.started
  {
  }

  /** How many of the steps from n up to m gave up the processor. */
  ghost function GiveUps(ks: seq<Kernel>, es: seq<Step>, n: nat, m: nat): nat
    requires n <= m <= |es| < |ks|
  {
    if m == n then 0 else GiveUps(ks, es, n, m - 1) + if GivesUp(ks[m - 1], es[m - 1]) then 1 else 0
  }

  /** As long as a thread that was ready waits for its turn, every step that gives up the processor is a
      dispatch. */
  lemma {:induction false} GiveUpsDispatch(ks: seq<Kernel>, es: seq<Step>, n: nat, m: nat)
    requires Run(ks, es) && n <= m < |ks|
    ensures |ks[m].dispatched| >= |ks[n].dispatched|
    ensures |ks[m].dispatched| - |ks[n].dispatched| >= |ks[n].ready| ||
            |ks[m].dispatched| - |ks[n].dispatched| == GiveUps(ks, es, n, m)
    decreases m
  {
    if n < m {
      var k, e, k' := ks[m - 1], es[m - 1], ks[m - 1 + 1];
      GiveUpsDispatch(ks, es, n, m - 1);
      DispatchInOrder(ks, es, n, m - 1);
      assert Enabled(k, e) && k' == Do(k, e);
      StepIsFifo(k, e);
      if |k.dispatched| - |ks[n].dispatched| < |ks[n].ready| {
        assert k.ready != [];
        StepSwitches(k, e);
      }
    }
  }

  /** Progress: a thread at index i of the ready list has been given the processor once i + 1 steps have
      given it up, in every run. */
  lemma ReadyRuns(ks: seq<Kernel>, es: seq<Step>, n: nat, m: nat, i: nat)
    requires Run(ks, es) && n <= m < |ks| && i < |ks[n].ready| && GiveUps(ks, es, n, m) > i
    ensures exists j :: n < j <= m && ks[j].current == ks[n].ready[i] && !ks[j].idling
  {
    GiveUpsDispatch(ks, es, n, m);
    DispatchInOrder(ks, es, n, m);
    var at := |ks[n].dispatched| + i;
    assert ks[m].dispatched[at] == ks[n].ready[i];
    var j := DispatchedAt(ks, es, n, m, at);
  }

  /** The moment at which a place in the history of dispatches was filled. */
  lemma {:induction false} DispatchedAt(ks: seq<Kernel>, es: seq<Step>, n: nat, m: nat, at: nat) returns (j: nat)
    requires Run(ks, es) && n <= m < |ks| && |ks[n].dispatched| <= at < |ks[m].dispatched|
    ensures n < j <= m && ks[j].current == ks[m].dispatched[at] && !ks[j].idling
    decreases m
  {
    var k, e, k' := ks[m - 1], es[m - 1], ks[m - 1 + 1];
    assert Enabled(k, e) && k' == Do(k, e);
    StepIsFifo(k, e);
    if at < |k.dispatched| {
      j := DispatchedAt(ks, es, n, m - 1, at);
    } else {
      j := m;
      StepSwitches(k, e);
    }
  }

  // ---- the queue of a semaphore ----

  /** P takes a unit exactly when there is one, and else joins the end of the queue; V adds a unit and
      puts the thread that has waited longest at the end of the ready list. */
  ghost predicate QueueLaw(k: Kernel, e: Step, s: nat, k': Kernel)
    requires s < |k.sems| && s < |k'.sems|
  {
    var a, b := k.sems[s], k'.sems[s];
    if e == StepV(s) then
      && b.vs == a.vs + 1 && b.value == a.value + 1 && b.ps == a.ps && k'.dispatched == k.dispatched
      && (a.queue == [] ==> b.queue == [] && k'.ready == k.ready)
      && (a.queue != [] ==> [a.queue[0]] + b.queue == a.queue && k'.ready == k.ready + [a.queue[0]])
    else if Tested(k, e) == Some(s) then
      && b.vs == a.vs
      && (a.value == 0 ==> b.value == 0 && b.ps == a.ps && b.queue == a.queue + [k.current])
      && (a.value != 0 ==> b.value == a.value - 1 && b.ps == a.ps + 1 && b.queue == a.queue && k'.current == k.current)
    else
      b == a
  }

  lemma StepQueues(k: Kernel, e: Step, s: nat)
    requires Enabled(k, e) && s < |k.sems|
    ensures |Do(k, e).sems| == |k.sems| && QueueLaw(k, e, s, Do(k, e))
  {
  }

  /** First come, first woken: of the threads in a queue, as many from its front are gone as there were
      Vs, and the others are still first. */
  lemma {:induction false} WokenInOrder(ks: seq<Kernel>, es: seq<Step>, n: nat, m: nat, s: nat)
    requires Run(ks, es) && n <= m < |ks| && s < |ks[n].sems|
    ensures |ks[m].sems| == |ks[n].sems| && ks[m].sems[s].vs >= ks[n].sems[s].vs
    ensures var gone := ks[m].sems[s].vs - ks[n].sems[s].vs;
            gone <= |ks[n].sems[s].queue| ==> ks[n].sems[s].queue[gone..] <= ks[m].sems[s].queue
    decreases m
  {
    if n < m {
      var k, e, k' := ks[m - 1], es[m - 1], ks[m - 1 + 1];
      WokenInOrder(ks, es, n, m - 1, s);
      assert Enabled(k, e) && k' == Do(k, e);
      StepQueues(k, e, s);
      var q, gone := ks[n].sems[s].queue, k.sems[s].vs - ks[n].sems[s].vs;
      if e == StepV(s) && gone < |q| {
        assert q[gone..][0] == k.sems[s].queue[0] && q[gone + 1..] == q[gone..][1..];
      }
    }
  }

  /** And the V that takes a thread off its queue makes it ready. */
  lemma WokenIsReady(ks: seq<Kernel>, es: seq<Step>, n: nat, m: nat, s: nat, i: nat)
    requires Run(ks, es) && n <= m < |es| && s < |ks[n].sems| && i < |ks[n].sems[s].queue|
    requires s < |ks[m].sems| && ks[m].sems[s].vs == ks[n].sems[s].vs + i && es[m] == StepV(s)
    ensures ks[m + 1].ready == ks[m].ready + [ks[n].sems[s].queue[i]]
  {
    WokenInOrder(ks, es, n, m, s);
    assert Enabled(ks[m], es[m]) && ks[m + 1] == Do(ks[m], es[m]);
    StepQueues(ks[m], es[m], s);
    assert ks[n].sems[s].queue[i..][0] == ks[m].sems[s].queue[0];
  }

  // ---- the deletion of finished threads ----

  /** Finished threads that exist and that nobody is going to delete any more. */
  ghost function Forgotten(k: Kernel): set<Thread> {
    set t | t in k.pc && k.pc[t] == Finished && k.toDestroy != Some(t)
  }

  /** The thread that is to be deleted, once the step has finished its own. */
  function Doomed(k: Kernel, e: Step): Option<Thread> {
    if e == StepFinish then Some(k.current) else k.toDestroy
  }

  /** A finished thread is deleted by the next thread that resumes, unless another one finishes before:
      then it is forgotten. */
  lemma FinishedFate(k: Kernel, e: Step)
    requires Inv(k) && Enabled(k, e)
    ensures var k', doomed := Do(k, e), Doomed(k, e);
            var resumes := |k'.dispatched| > |k.dispatched| && k'.current in k.started;
            && k'.toDestroy == (if resumes then None else doomed)
            && k'.dead == k.dead + (if resumes && doomed.Some? then {doomed.value} else {})
    ensures Forgotten(Do(k, e)) ==
            Forgotten(k) + (if e == StepFinish && k.toDestroy.Some? then {k.toDestroy.value} else {})
  {
    ForgottenBy(k, e);
    if k.ready == [] {
      NobodyReady(k, e);
    } else {
      StepSwitches(k, e);
    }
  }

  /** Switching threads forgets none. */
  lemma SleepForgets(k: Kernel)
    ensures Forgotten(Sleep(k)) == Forgotten(k)
  {
  }

  lemma ForgottenBy(k: Kernel, e: Step)
    requires Inv(k) && Enabled(k, e)
    ensures Forgotten(Do(k, e)) ==
            Forgotten(k) + (if e == StepFinish && k.toDestroy.Some? then {k.toDestroy.value} else {})
  {
    match e
    case StepYield =>
      if k.ready != [] {
        SleepForgets(k.(ready := k.ready + [k.current]));
      }
    case StepP(s) => TestForgets(k, s);
    case StepRetest => TestForgets(k, k.pc[k.current].sem);
    case StepFinish => SleepForgets(k.(toDestroy := Some(k.current), pc := k.pc[k.current := Finished]));
    case StepIdle => SleepForgets(k);
    case _ =>
  }

  lemma TestForgets(k: Kernel, s: nat)
    requires Inv(k) && MayTest(k, s)
    ensures Forgotten(TestP(k, s)) == Forgotten(k)
  {
    if k.sems[s].value == 0 {
      SleepForgets(Enqueued(k, s));
    }
  }

  /** No thread has finished, in the first n steps, while another one still waited to be deleted. */
  ghost predicate OneAtATime(ks: seq<Kernel>, es: seq<Step>, n: nat)
    requires n <= |es| < |ks|
  {
    forall i :: 0 <= i < n && es[i] == StepFinish ==> ks[i].toDestroy == None
  }

  /** In every run, threads are forgotten exactly when one finishes while another still waits to be
      deleted. */
  lemma {:induction false} NothingForgotten(ks: seq<Kernel>, es: seq<Step>, n: nat)
    requires Run(ks, es) && Start(ks[0]) && n < |ks|
    ensures Forgotten(ks[n]) == {} <==> OneAtATime(ks, es, n)
  {
    if n > 0 {
      var i := n - 1;
      NothingForgotten(ks, es, i);
      ForgottenStep(ks, es, i);
      OneMoreAtATime(ks, es, i);
    } else {
      NothingFinished(ks[0]);
    }
  }

  lemma NothingFinished(k: Kernel)
    requires Start(k)
    ensures Forgotten(k) == {}
  {
  }

  lemma OneMoreAtATime(ks: seq<Kernel>, es: seq<Step>, n: nat)
    requires n < |es| < |ks|
    ensures OneAtATime(ks, es, n + 1) <==>
            OneAtATime(ks, es, n) && (es[n] == StepFinish ==> ks[n].toDestroy == None)
  {
  }

  lemma ForgottenStep(ks: seq<Kernel>, es: seq<Step>, i: nat)
    requires Run(ks, es) && Start(ks[0]) && i < |es|
    ensures Forgotten(ks[i + 1]) == {} <==>
            Forgotten(ks[i]) == {} && (es[i] == StepFinish ==> ks[i].toDestroy == None)
  {
    RunKeepsInv(ks, es, i);
    assert Enabled(ks[i], es[i]) && ks[i + 1] == Do(ks[i], es[i]);
    FinishedFate(ks[i], es[i]);
  }

  /** It happens whenever a thread finishes and the next one, which has not run before, does so too. */
  lemma FreshThreadForgets(k: Kernel)
    requires Inv(k) && Enabled(k, StepFinish) && k.ready != [] && k.ready[0] !in k.started
    ensures var k1 := Do(k, StepFinish); Enabled(k1, StepFinish) && k.current in Forgotten(Do(k1, StepFinish))
  {
    var k1 := Do(k, StepFinish);
    assert OnePlace(k, k.ready[0]);
    StepKeepsInv(k, StepFinish);
    FinishedFate(k, StepFinish);
    FinishedFate(k1, StepFinish);
  }

  // ---- the kernel's variables ----

  /** The globals of the thread system.  Each method is one step; P is cut where it sleeps. */
  class ThreadSystem {
    var currentThread: Thread
    var idle: bool
    var readyList: seq<Thread>
    var semaphores: seq<Sem>
    var pc: map<Thread, Pc>
    var started: set<Thread>
    var threadToBeDestroyed: Option<Thread>
    ghost var dead: set<Thread>
    ghost var dispatched: seq<Thread>

    ghost function State(): Kernel
      reads this
    {
      Kernel(currentThread, idle, readyList, semaphores, pc, started, threadToBeDestroyed, dead, dispatched)
    }

    /** The machine has just booted: the main thread runs. */
    constructor (main: Thread, values: seq<nat>)
      ensures Start(State()) && |semaphores| == |values| && Inv(State())
    {
      currentThread, idle, readyList, pc := main, false, [], map[main := Free];
      semaphores := seq(|values|, i requires 0 <= i < |values| => Sem(values[i], [], values[i], 0, 0));
      started, threadToBeDestroyed, dead, dispatched := {main}, None, {}, [];
      new;
      StartInv(State());
    }

    method ReadyToRun(t: Thread)
      modifies this`readyList
      ensures readyList == old(readyList) + [t]
    {
      readyList := readyList + [t];
    }

    method FindNextToRun() returns (t: Option<Thread>)
      modifies this`readyList
      ensures t == if old(readyList) == [] then None else Some(old(readyList)[0])
      ensures readyList == if old(readyList) == [] then [] else old(readyList)[1..]
    {
      if readyList == [] {
        return None;
      }
      t := Some(readyList[0]);
      readyList := readyList[1..];
    }

    /** Switches to nextThread, which deletes a finished thread when it comes back from an earlier
        switch.  The thread deleted is never the current one. */
    method RunThread(nextThread: Thread)
      requires threadToBeDestroyed != Some(nextThread)
      modifies this
      ensures State() == Dispatch(old(State()), nextThread)
    {
      var resumes := nextThread in started;
      currentThread := nextThread;
      idle := false;
      started := started + {nextThread};
      dispatched := dispatched + [nextThread];
      if resumes && threadToBeDestroyed.Some? {
        assert threadToBeDestroyed.value != currentThread;
        dead := dead + {threadToBeDestroyed.value};
        pc := pc - {threadToBeDestroyed.value};
        threadToBeDestroyed := None;
      }
    }

    method ForkThread(t: Thread)
      requires Inv(State()) && Enabled(State(), StepFork(t))
      modifies this
      ensures State() == Do(old(State()), StepFork(t)) && Inv(State())
    {
      StepKeepsInv(State(), StepFork(t));
      pc := pc[t := Free];
      ReadyToRun(t);
    }

    method YieldThread()
      requires Inv(State()) && Enabled(State(), StepYield)
      modifies this
      ensures State() == Do(old(State()), StepYield) && Inv(State())
    {
      StepKeepsInv(State(), StepYield);
      var next := FindNextToRun();
      if next.Some? {
        ReadyToRun(currentThread);
        RunThread(next.value);
      }
    }

    /** Gives up the processor; with nothing ready the machine goes idle. */
    method SleepThread()
      requires Structure(State().(idling := true))
      modifies this
      ensures State() == Sleep(old(State()))
    {
      var next := FindNextToRun();
      if next.None? {
        idle := true;
      } else {
        RunThread(next.value);
      }
    }

    method FinishThread()
      requires Inv(State()) && Enabled(State(), StepFinish)
      modifies this
      ensures State() == Do(old(State()), StepFinish) && Inv(State())
    {
      StepKeepsInv(State(), StepFinish);
      FinishedStructure(State());
      threadToBeDestroyed := Some(currentThread);
      pc := pc[currentThread := Finished];
      SleepThread();
    }

    /** One round of the loop in P, by a thread that calls it or was woken inside it. */
    method TestSemaphore(s: nat)
      requires Inv(State()) && MayTest(State(), s)
      modifies this
      ensures State() == TestP(old(State()), s) && Inv(State())
    {
      TestPKeeps(State(), s);
      TestPKeepsSemaphores(State(), s);
      var sem := semaphores[s];
      if sem.value == 0 {
        EnqueueKeeps(State(), s);
        semaphores := semaphores[s := sem.(queue := sem.queue + [currentThread])];
        pc := pc[currentThread := Waiting(s)];
        SleepThread();
      } else {
        semaphores := semaphores[s := sem.(value := sem.value - 1, ps := sem.ps + 1)];
        pc := pc[currentThread := Free];
      }
    }

    method V(s: nat)
      requires Inv(State()) && s < |semaphores|
      modifies this
      ensures State() == Do(old(State()), StepV(s)) && Inv(State())
    {
      StepKeepsInv(State(), StepV(s));
      var sem := semaphores[s];
      if sem.queue != [] {
        ReadyToRun(sem.queue[0]);
        sem := sem.(queue := sem.queue[1..]);
      }
      semaphores := semaphores[s := sem.(value := sem.value + 1, vs := sem.vs + 1)];
    }

    /** The idle loop of Sleep goes on once an interrupt handler has made a thread ready. */
    method Resume()
      requires Inv(State()) && Enabled(State(), StepIdle)
      modifies this
      ensures State() == Do(old(State()), StepIdle) && Inv(State())
    {
      StepKeepsInv(State(), StepIdle);
      var next := FindNextToRun();
      RunThread(next.value);
    }
  }

  lemma FinishedStructure(k: Kernel)
    requires Structure(k) && Enabled(k, StepFinish)
    ensures Structure(k.(toDestroy := Some(k.current), pc := k.pc[k.current := Finished], idling := true))
  {
    var k1 := k.(toDestroy := Some(k.current), pc := k.pc[k.current := Finished], idling := true);
    assert OnePlace(k, k.current);
    forall u | u in k1.pc ensures OnePlace(k1, u) {
      assert OnePlace(k, u);
    }
  }
}
