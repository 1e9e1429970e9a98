/**
 Simulated time and hardware interrupts (machine/interrupt.cc): a discrete-event clock over a
 sorted list of pending interrupts.  A handler is arbitrary: it may schedule any finite number of
 later interrupts.
 */
module Interrupts {
  import opened LinkedLists

  datatype IntType = TimerInt | DiskInt | ConsoleWriteInt | ConsoleReadInt | NetworkSendInt | NetworkRecvInt
  datatype MachineStatus = IdleMode | SystemMode | UserMode

  /** A pending interrupt; id stands for its handler and argument. */
  datatype Event = Event(when: int, kind: IntType, id: nat)

  /** A call of Schedule. */
  datatype Request = Request(fromNow: int, kind: IntType, id: nat)

  const USER_TICK: int := 1
  const SYSTEM_TICK: int := 10

  /** The state of the clock, with the history of what was scheduled and what was fired. */
  datatype Clock = Clock(
    total: int, idle: int, system: int, user: int, status: MachineStatus,
    pending: seq<Keyed<Event>>, fired: seq<Event>, scheduled: multiset<Event>)
  {
    ghost predicate NothingDue() {
      forall i :: 0 <= i < |pending| ==> pending[i].key > total
    }

    /** The timer is all that is left while the machine idles. */
    predicate OnlyTimerLeft() {
      status == IdleMode && |pending| == 1 && pending[0].item.kind == TimerInt
    }
  }

  function Items(s: seq<Keyed<Event>>): (r: seq<Event>)
    ensures |r| == |s|
  {
    seq(|s|, i requires 0 <= i < |s| => s[i].item)
  }

  const START: Clock := Clock(0, 0, 0, 0, SystemMode, [], [], multiset{})

  ghost function Schedule(c: Clock, r: Request): Clock {
    var e := Event(c.total + r.fromNow, r.kind, r.id);
    c.(pending := Insert(c.pending, Keyed(e.when, e)), scheduled := c.scheduled + multiset{e})
  }

  ghost function ScheduleAll(c: Clock, rs: seq<Request>): Clock
    decreases rs
  {
    if rs == [] then c else ScheduleAll(Schedule(c, rs[0]), rs[1..])
  }

  ghost predicate Future(rs: seq<Request>) {
    forall i :: 0 <= i < |rs| ==> rs[i].fromNow > 0
  }

  ghost function PutBack(c: Clock): Clock
    requires c.pending != []
  {
    c.(pending := Insert(c.pending[1..], c.pending[0]))
  }

  ghost function TakeHead(c: Clock): Clock
    requires c.pending != []
  {
    c.(pending := c.pending[1..], fired := c.fired + [c.pending[0].item])
  }

  /** Idle time passes until the head is due, if it is not. */
  function IdleUntilHead(c: Clock): Clock
    requires c.pending != []
  {
    var when := c.pending[0].key;
    if when > c.total then c.(idle := c.idle + (when - c.total), total := when) else c
  }

  /** Removes the head and either puts it back or fires it, in which case its handler schedules rs. */
  ghost function CheckIfDue(c: Clock, advance: bool, rs: seq<Request>): (Clock, bool) {
    if c.pending == [] then (c, false)
    else if !advance && c.pending[0].key > c.total then (PutBack(c), false)
    else if c.OnlyTimerLeft() then (PutBack(IdleUntilHead(c)), false)
    else (ScheduleAll(TakeHead(IdleUntilHead(c)), rs), true)
  }

  function Tick(c: Clock): Clock {
    if c.status == SystemMode then c.(total := c.total + SYSTEM_TICK, system := c.system + SYSTEM_TICK)
    else c.(total := c.total + USER_TICK, user := c.user + USER_TICK)
  }

  /** What every step keeps. */
  ghost predicate Inv(c: Clock) {
    && Sorted(c.pending)
    && (forall i :: 0 <= i < |c.pending| ==> c.pending[i].key == c.pending[i].item.when)
    && c.total == c.idle + c.system + c.user
    // fired in order, and never ahead of time
    && (forall i, j :: 0 <= i < j < |c.fired| ==> c.fired[i].when <= c.fired[j].when)
    && (forall i :: 0 <= i < |c.fired| ==> c.fired[i].when <= c.total)
    && (forall i, j :: 0 <= i < |c.fired| && 0 <= j < |c.pending| ==> c.fired[i].when <= c.pending[j].key)
    // nothing lost, nothing duplicated
    && multiset(Items(c.pending)) + multiset(c.fired) == c.scheduled
  }

  lemma ItemsConcat(s: seq<Keyed<Event>>, t: seq<Keyed<Event>>)
    ensures Items(s + t) == Items(s) + Items(t)
  {
  }

  lemma ItemsInsert(s: seq<Keyed<Event>>, x: Keyed<Event>)
    ensures multiset(Items(Insert(s, x))) == multiset(Items(s)) + multiset{x.item}
  {
    var k := InsertIndex(s, x);
    InsertSplits(s, x);
    var a, b := s[..k], s[k..];
    assert s == a + b;
    ItemsConcat(a, b);
    ItemsConcat(a + [x], b);
    ItemsConcat(a, [x]);
    assert Items([x]) == [x.item];
  }

  /** An element of the list after insertion was there before, or is the new one. */
  lemma InsertElements(s: seq<Keyed<Event>>, x: Keyed<Event>, i: nat)
    requires i < |Insert(s, x)|
    ensures Insert(s, x)[i] == x || exists j :: 0 <= j < |s| && s[j] == Insert(s, x)[i]
  {
    var k := InsertIndex(s, x);
    InsertSplits(s, x);
    if i < k {
      assert s[i] == Insert(s, x)[i];
    } else if i > k {
      assert s[i - 1] == Insert(s, x)[i];
    }
  }

  /** Inserting an interrupt that is due no earlier than anything fired. */
  lemma InsertKeepsInv(c: Clock, x: Keyed<Event>)
    requires Sorted(c.pending) && x.key == x.item.when
    requires Inv(c.(scheduled := multiset(Items(c.pending)) + multiset(c.fired)))
    requires forall i :: 0 <= i < |c.fired| ==> c.fired[i].when <= x.key
    ensures Inv(c.(pending := Insert(c.pending, x),
                   scheduled := multiset(Items(c.pending)) + multiset(c.fired) + multiset{x.item}))
  {
    InsertSorted(c.pending, x);
    ItemsInsert(c.pending, x);
    var p := Insert(c.pending, x);
    forall j | 0 <= j < |p| ensures p[j] == x || exists k :: 0 <= k < |c.pending| && c.pending[k] == p[j] {
      InsertElements(c.pending, x, j);
    }
  }

  lemma ScheduleKeepsInv(c: Clock, r: Request)
    requires Inv(c) && r.fromNow > 0
    ensures Inv(Schedule(c, r))
  {
    var e := Event(c.total + r.fromNow, r.kind, r.id);
    InsertKeepsInv(c, Keyed(e.when, e));
  }

  lemma {:induction false} ScheduleAllKeepsInv(c: Clock, rs: seq<Request>)
    requires Inv(c) && Future(rs)
    ensures Inv(ScheduleAll(c, rs))
    decreases rs
  {
    if rs != [] {
      ScheduleKeepsInv(c, rs[0]);
      ScheduleAllKeepsInv(Schedule(c, rs[0]), rs[1..]);
    }
  }

  lemma ItemsHead(s: seq<Keyed<Event>>)
    requires s != []
    ensures Items(s) == [s[0].item] + Items(s[1..])
  {
  }

  /** Taking the head off: what is left is consistent once the head is counted as fired. */
  lemma FireKeepsInv(c: Clock)
    requires Inv(c) && c.pending != [] && c.pending[0].key <= c.total
    ensures Inv(TakeHead(c))
  {
    TailKeepsInv(c);
    assert multiset(c.fired + [c.pending[0].item]) == multiset(c.fired) + multiset{c.pending[0].item};
  }

  /** Putting the head back may change the order of equal keys, and nothing else. */
  lemma PutBackKeepsInv(c: Clock)
    requires Inv(c) && c.pending != []
    ensures Inv(PutBack(c))
  {
    TailKeepsInv(c);
    InsertKeepsInv(c.(pending := c.pending[1..]), c.pending[0]);
  }

  lemma TailKeepsInv(c: Clock)
    requires Inv(c) && c.pending != []
    ensures var t := c.pending[1..];
            && Sorted(t) && Inv(c.(pending := t, scheduled := multiset(Items(t)) + multiset(c.fired)))
            && multiset(Items(t)) + multiset(c.fired) + multiset{c.pending[0].item} == c.scheduled
  {
    ItemsHead(c.pending);
  }

  /** Every call of CheckIfDue keeps order, clock and conservation. */
  lemma CheckIfDueKeepsInv(c: Clock, advance: bool, rs: seq<Request>)
    requires Inv(c) && Future(rs)
    ensures Inv(CheckIfDue(c, advance, rs).0)
  {
    if c.pending != [] {
      var c1 := IdleUntilHead(c);
      if !advance && c.pending[0].key > c.total {
        PutBackKeepsInv(c);
      } else if c.OnlyTimerLeft() {
        PutBackKeepsInv(c1);
      } else {
        FireKeepsInv(c1);
        ScheduleAllKeepsInv(TakeHead(c1), rs);
      }
    }
  }

  /** Scheduling does not depend on the mode the machine is in. */
  lemma {:induction false} ScheduleKeepsStatus(c: Clock, status: MachineStatus, rs: seq<Request>)
    ensures ScheduleAll(c.(status := status), rs) == ScheduleAll(c, rs).(status := status)
    decreases rs
  {
    if rs != [] {
      ScheduleKeepsStatus(Schedule(c, rs[0]), status, rs[1..]);
      assert Schedule(c.(status := status), rs[0]) == Schedule(c, rs[0]).(status := status);
    }
  }

  /** An interrupt that a device asks for n ticks ahead is pending for just that moment, and the others
      stay as they were. */
  lemma ScheduledAt(c: Clock, r: Request)
    requires Inv(c) && r.fromNow > 0
    ensures multiset(Items(Schedule(c, r).pending)) ==
            multiset(Items(c.pending)) + multiset{Event(c.total + r.fromNow, r.kind, r.id)}
    ensures Schedule(c, r).total == c.total && Schedule(c, r).fired == c.fired
  {
    var e := Event(c.total + r.fromNow, r.kind, r.id);
    ItemsInsert(c.pending, Keyed(e.when, e));
  }

  /** An idle machine goes straight to the first interrupt, charges the wait as idle time and fires it;
      but it stops when that is the timer alone. */
  lemma IdleGoesToFirst(c: Clock, rs: seq<Request>)
    requires Inv(c) && Future(rs) && c.pending != []
    ensures var first := c.pending[0].item;
            var (c', fires) := CheckIfDue(c, true, rs);
            && (fires <==> !(c.status == IdleMode && |c.pending| == 1 && first.kind == TimerInt))
            && c'.total == (if first.when > c.total then first.when else c.total)
            && c'.idle - c.idle == c'.total - c.total && c'.system == c.system && c'.user == c.user
            && c'.fired == (if fires then c.fired + [first] else c.fired)
            && forall i :: 0 <= i < |c.pending| ==> first.when <= c.pending[i].item.when
  {
    DueScheduleAll(TakeHead(IdleUntilHead(c)), rs);
  }

  // ---- termination of the firing loop ----

  ghost function DueCount(s: seq<Keyed<Event>>, now: int): nat {
    if s == [] then 0 else (if s[0].key <= now then 1 else 0) + DueCount(s[1..], now)
  }

  lemma {:induction false} DueInsert(s: seq<Keyed<Event>>, x: Keyed<Event>, now: int)
    ensures DueCount(Insert(s, x), now) == DueCount(s, now) + if x.key <= now then 1 else 0
  {
    if s == [] || x.key < s[0].key {
      assert ([x] + s)[1..] == s;
    } else {
      DueInsert(s[1..], x, now);
      assert ([s[0]] + Insert(s[1..], x))[1..] == Insert(s[1..], x);
    }
  }

  /** No time has been charged to anybody. */
  predicate SameCounts(c: Clock, c': Clock) {
    c'.idle == c.idle && c'.system == c.system && c'.user == c.user
  }

  lemma {:induction false} DueScheduleAll(c: Clock, rs: seq<Request>)
    requires Future(rs)
    ensures DueCount(ScheduleAll(c, rs).pending, c.total) == DueCount(c.pending, c.total)
    ensures var c' := ScheduleAll(c, rs); c'.total == c.total && SameCounts(c, c')
    ensures ScheduleAll(c, rs).fired == c.fired && ScheduleAll(c, rs).status == c.status
    decreases rs
  {
    if rs != [] {
      var e := Event(c.total + rs[0].fromNow, rs[0].kind, rs[0].id);
      DueInsert(c.pending, Keyed(e.when, e), c.total);
      DueScheduleAll(Schedule(c, rs[0]), rs[1..]);
    }
  }

  /** Each interrupt fired without advancing the clock uses up one that was due. */
  lemma FiringUsesOne(c: Clock, rs: seq<Request>)
    requires Future(rs) && CheckIfDue(c, false, rs).1
    ensures var c' := CheckIfDue(c, false, rs).0;
            && c'.total == c.total && c'.status == c.status && SameCounts(c, c')
            && DueCount(c'.pending, c'.total) == DueCount(c.pending, c.total) - 1
            && c'.fired == c.fired + [c.pending[0].item]
  {
    DueScheduleAll(TakeHead(c), rs);
  }

  /** When the loop stops, nothing is due, unless the machine idles with only the timer left. */
  lemma StopMeansNothingDue(c: Clock, rs: seq<Request>)
    requires Inv(c) && !CheckIfDue(c, false, rs).1
    ensures var c' := CheckIfDue(c, false, rs).0;
            && (c'.NothingDue() || c.OnlyTimerLeft())
            && c'.total == c.total && c'.fired == c.fired && c'.status == c.status && SameCounts(c, c')
            && multiset(Items(c'.pending)) == multiset(Items(c.pending))
  {
    if c.pending != [] {
      var head, rest := c.pending[0], c.pending[1..];
      ItemsHead(c.pending);
      ItemsInsert(rest, head);
      var p := Insert(rest, head);
      forall i | 0 <= i < |p| ensures p[i].key >= head.key {
        InsertElements(rest, head, i);
      }
    }
  }

  /** c' is reached from c by firing one due interrupt per element of rss. */
  ghost predicate FiredAll(c: Clock, rss: seq<seq<Request>>, c': Clock)
    decreases rss
  {
    if rss == [] then c' == c else
    var n := |rss| - 1;
    exists b :: FiredAll(c, rss[..n], b) && Future(rss[n]) && CheckIfDue(b, false, rss[n]) == (c', true)
  }

  lemma FiredOneMore(c: Clock, rss: seq<seq<Request>>, b: Clock, rs: seq<Request>, c': Clock)
    requires FiredAll(c, rss, b) && Future(rs) && CheckIfDue(b, false, rs) == (c', true)
    ensures FiredAll(c, rss + [rs], c')
  {
    assert (rss + [rs])[..|rss|] == rss;
  }

  /** The firing loop keeps the clock still, fires in order, and only ever adds to the history. */
  lemma {:induction false} FiringKeeps(c: Clock, rss: seq<seq<Request>>, c': Clock)
    requires Inv(c) && FiredAll(c, rss, c')
    ensures Inv(c') && c'.total == c.total && c'.status == c.status && SameCounts(c, c')
    ensures |c'.fired| == |c.fired| + |rss| && c.fired <= c'.fired
    ensures DueCount(c'.pending, c.total) + |rss| == DueCount(c.pending, c.total)
    decreases rss
  {
    if rss != [] {
      var n := |rss| - 1;
      var b :| FiredAll(c, rss[..n], b) && Future(rss[n]) && CheckIfDue(b, false, rss[n]) == (c', true);
      FiringKeeps(c, rss[..n], b);
      CheckIfDueKeepsInv(b, false, rss[n]);
      FiringUsesOne(b, rss[n]);
    }
  }

  /** The whole firing loop, with the last call that fires nothing. */
  ghost predicate FiredUntilStop(c: Clock, rss: seq<seq<Request>>, c': Clock) {
    exists b :: FiredAll(c, rss, b) && CheckIfDue(b, false, []) == (c', false)
  }

  /** A whole OneTick: time advances, then interrupts fire until the loop stops. */
  ghost predicate OneTick(c: Clock, rss: seq<seq<Request>>, c': Clock) {
    FiredUntilStop(Tick(c), rss, c')
  }

  /** The moment that one step of time leads to: ten ticks on in the kernel, one tick on elsewhere. */
  function NextMoment(c: Clock): int {
    c.total + if c.status == SystemMode then 10 else 1
  }

  /** OneTick counts ten ticks of system time in the kernel and one tick of user time elsewhere, fires
      exactly the interrupts that are due by then, and leaves nothing due behind. */
  lemma OneTickFiresAllDue(c: Clock, rss: seq<seq<Request>>, c': Clock)
    requires Inv(c) && c.status != IdleMode && OneTick(c, rss, c')
    ensures Inv(c') && c'.NothingDue() && c'.total == NextMoment(c) && c'.idle == c.idle
    ensures c.status == SystemMode ==> c'.system == c.system + 10 && c'.user == c.user
    ensures c.status == UserMode ==> c'.user == c.user + 1 && c'.system == c.system
    ensures |c'.fired| == |c.fired| + DueCount(c.pending, NextMoment(c)) && c.fired <= c'.fired
  {
    var b :| FiredAll(Tick(c), rss, b) && CheckIfDue(b, false, []) == (c', false);
    FiringKeeps(Tick(c), rss, b);
    CheckIfDueKeepsInv(b, false, []);
    StopMeansNothingDue(b, []);
    NoneDue(b);
  }

  lemma {:induction false} DueNone(s: seq<Keyed<Event>>, now: int)
    requires forall i :: 0 <= i < |s| ==> s[i].key > now
    ensures DueCount(s, now) == 0
  {
    if s != [] {
      DueNone(s[1..], now);
    }
  }

  lemma NoneDue(b: Clock)
    requires Inv(b) && !CheckIfDue(b, false, []).1 && !b.OnlyTimerLeft()
    ensures DueCount(b.pending, b.total) == 0
  {
    if b.pending != [] {
      DueNone(b.pending, b.total);
    }
  }

  // ---- every run ----

  datatype Action =
    | AdvanceTick
    | Check(advance: bool, rs: seq<Request>)
    | ScheduleOne(r: Request)
    | ChangeMode(status: MachineStatus)

  ghost predicate Step(c: Clock, a: Action, c': Clock) {
    match a
    case AdvanceTick => c' == Tick(c)
    case Check(advance, rs) => Future(rs) && c' == CheckIfDue(c, advance, rs).0
    case ScheduleOne(r) => r.fromNow > 0 && c' == Schedule(c, r)
    case ChangeMode(status) => c' == c.(status := status)
  }

  ghost predicate Run(cs: seq<Clock>, actions: seq<Action>) {
    && |cs| == |actions| + 1 && cs[0] == START
    && forall i {:trigger actions[i]} :: 0 <= i < |actions| ==> Step(cs[i], actions[i], cs[i + 1])
  }

  lemma StepKeepsInv(c: Clock, a: Action, c': Clock)
    requires Inv(c) && Step(c, a, c')
    ensures Inv(c')
  {
    match a
    case AdvanceTick =>
    case Check(advance, rs) => CheckIfDueKeepsInv(c, advance, rs);
    case ScheduleOne(r) => ScheduleKeepsInv(c, r);
    case ChangeMode(_) =>
  }

  /** Over every run: interrupts fire in order of time and never early, none is lost or
      duplicated, and the total time is the sum of idle, system and user time. */
  lemma {:induction false} RunKeepsTime(cs: seq<Clock>, actions: seq<Action>, k: nat)
    requires Run(cs, actions) && k < |cs|
    ensures Inv(cs[k])
  {
    if k > 0 {
      RunKeepsTime(cs, actions, k - 1);
      assert Step(cs[k - 1], actions[k - 1], cs[k - 1 + 1]);
      StepKeepsInv(cs[k - 1], actions[k - 1], cs[k]);
    }
  }

  /** A tick with the machine in the kernel, or a tick elsewhere. */
  predicate IsTick(c: Clock, a: Action, kernel: bool) {
    a == AdvanceTick && (c.status == SystemMode) == kernel
  }

  /** How many of the first k steps were such ticks. */
  ghost function Ticks(cs: seq<Clock>, actions: seq<Action>, k: nat, kernel: bool): nat
    requires k <= |actions| < |cs|
  {
    if k == 0 then 0
    else Ticks(cs, actions, k - 1, kernel) + if IsTick(cs[k - 1], actions[k - 1], kernel) then 1 else 0
  }

  lemma StepCharges(c: Clock, a: Action, c': Clock)
    requires Step(c, a, c')
    ensures c'.system == c.system + (if IsTick(c, a, true) then 10 else 0)
    ensures c'.user == c.user + (if IsTick(c, a, false) then 1 else 0)
    ensures c'.idle >= c.idle
  {
    if a.Check? && c.pending != [] {
      DueScheduleAll(TakeHead(IdleUntilHead(c)), a.rs);
    }
  }

  /** Over every run, system time is ten for each tick taken in the kernel and user time one for each
      of the others. */
  lemma {:induction false} RunCharges(cs: seq<Clock>, actions: seq<Action>, k: nat)
    requires Run(cs, actions) && k < |cs|
    ensures cs[k].system == 10 * Ticks(cs, actions, k, true) && cs[k].user == Ticks(cs, actions, k, false)
    ensures cs[k].idle >= 0
  {
    if k > 0 {
      var c, a, c' := cs[k - 1], actions[k - 1], cs[k - 1 + 1];
      RunCharges(cs, actions, k - 1);
      assert Step(c, a, c');
      StepCharges(c, a, c');
    }
  }

  /** So all the rest of the time was spent idling. */
  lemma RunIdles(cs: seq<Clock>, actions: seq<Action>, k: nat)
    requires Run(cs, actions) && k < |cs|
    ensures cs[k].total == cs[k].idle + 10 * Ticks(cs, actions, k, true) + Ticks(cs, actions, k, false)
  {
    RunKeepsTime(cs, actions, k);
    RunCharges(cs, actions, k);
  }

  // ---- the interrupt hardware ----

  /** A device handler: it may ask for any later interrupts, and for a context switch. */
  method Handle(e: Event) returns (rs: seq<Request>, wantsYield: bool)
    ensures Future(rs)
  {
    rs, wantsYield := *, *;
    if !(forall i :: 0 <= i < |rs| ==> rs[i].fromNow > 0) {
      rs := [];
    }
  }

  class Interrupt {
    var pending: seq<Keyed<Event>>   // the sorted list; its pointers are in LinkedLists.List
    var levelOn: bool
    var inHandler: bool
    var yieldOnReturn: bool
    var status: MachineStatus
    var totalTicks: int
    var idleTicks: int
    var systemTicks: int
    var userTicks: int
    ghost var fired: seq<Event>
    ghost var scheduled: multiset<Event>

    ghost function State(): Clock
      reads this
    {
      Clock(totalTicks, idleTicks, systemTicks, userTicks, status, pending, fired, scheduled)
    }

    constructor ()
      ensures State() == START
      ensures !levelOn && !inHandler && !yieldOnReturn
    {
      pending := [];
      levelOn, inHandler, yieldOnReturn, status := false, false, false, SystemMode;
      totalTicks, idleTicks, systemTicks, userTicks := 0, 0, 0, 0;
      fired, scheduled := [], multiset{};
    }

    method ScheduleInterrupt(r: Request)
      requires r.fromNow > 0
      modifies this`scheduled, this`pending
      ensures State() == Schedule(old(State()), r)
    {
      var when := totalTicks + r.fromNow;
      var toOccur := Event(when, r.kind, r.id);
      pending := Insert(pending, Keyed(when, toOccur));
      scheduled := scheduled + multiset{toOccur};
    }

    /** What a handler schedules, one call after the other. */
    method ScheduleRequests(rs: seq<Request>)
      requires Future(rs)
      modifies this`scheduled, this`pending
      ensures State() == ScheduleAll(old(State()), rs)
      decreases rs
    {
      if rs != [] {
        ScheduleInterrupt(rs[0]);
        ScheduleRequests(rs[1..]);
      }
    }

    /** Fires the first pending interrupt if it is due, or if the clock may be advanced to it. */
    method CheckDue(advanceClock: bool) returns (r: bool, ghost rs: seq<Request>)
      requires !levelOn
      modifies this
      ensures Future(rs) && (State(), r) == CheckIfDue(old(State()), advanceClock, rs)
      ensures !levelOn && status == old(status) && (!r ==> rs == [])
    {
      if pending == [] {
        return false, [];
      }
      var toOccur, when := pending[0].item, pending[0].key;
      pending := pending[1..];
      if advanceClock && when > totalTicks {
        idleTicks := idleTicks + (when - totalTicks);
        totalTicks := when;
      } else if when > totalTicks {
        pending := Insert(pending, Keyed(when, toOccur));
        return false, [];
      }
      r, rs := FireUnlessLast(toOccur, when, old(State()));
    }

    /** The head is due: it is put back if the idle machine has only the timer left, else fired. */
    method FireUnlessLast(toOccur: Event, when: int, ghost c: Clock) returns (r: bool, ghost rs: seq<Request>)
      requires !levelOn
      requires c.pending != [] && c.pending[0] == Keyed(when, toOccur)
      requires State() == IdleUntilHead(c).(pending := c.pending[1..])
      modifies this
      ensures Future(rs) && !levelOn && status == old(status) && (!r ==> rs == [])
      ensures r == !c.OnlyTimerLeft()
      ensures State() == if r then ScheduleAll(TakeHead(IdleUntilHead(c)), rs) else PutBack(IdleUntilHead(c))
    {
      if status == IdleMode && toOccur.kind == TimerInt && pending == [] {
        pending := Insert(pending, Keyed(when, toOccur));
        return false, [];
      }
      var wasStatus := status;
      inHandler := true;
      status := SystemMode;
      ghost var taken := TakeHead(IdleUntilHead(c));
      assert State().(fired := fired + [toOccur]) == taken.(status := SystemMode);
      rs := RunHandler(toOccur);
      ScheduleKeepsStatus(taken, SystemMode, rs);
      ScheduleKeepsStatus(taken, wasStatus, rs);
      assert taken.(status := wasStatus) == taken;
      status := wasStatus;
      inHandler := false;
      return true, rs;
    }

    /** Calls the handler of an interrupt: any later interrupts may be scheduled. */
    method RunHandler(toOccur: Event) returns (ghost rs: seq<Request>)
      modifies this`scheduled, this`fired, this`yieldOnReturn, this`pending
      ensures Future(rs)
      ensures State() == ScheduleAll(old(State()).(fired := old(fired) + [toOccur]), rs)
    {
      fired := fired + [toOccur];
      var requests, wantsYield := Handle(toOccur);
      rs := requests;
      yieldOnReturn := yieldOnReturn || wantsYield;
      ScheduleRequests(requests);
    }

    /** while (CheckIfDue(FALSE)): fires everything that is due, and terminates. */
    method FireDue() returns (ghost rss: seq<seq<Request>>)
      requires !levelOn
      modifies this
      ensures !levelOn && status == old(status)
      ensures FiredUntilStop(old(State()), rss, State())
    {
      ghost var c, b := State(), State();
      rss := [];
      var more, rs := CheckDue(false);
      while more
        invariant !levelOn && status == old(status)
        invariant Future(rs) && (!more ==> rs == [])
        invariant FiredAll(c, rss, b) && CheckIfDue(b, false, rs) == (State(), more)
        decreases more, DueCount(pending, totalTicks)
      {
        FiredOneMore(c, rss, b, rs, State());
        rss, b := rss + [rs], State();
        more, rs := CheckDue(false);
        if more {
          FiringUsesOne(b, rs);
        }
      }
    }

    /** Advances time by one step and fires what has become due; tells whether to yield. */
    method Advance() returns (mustYield: bool, ghost rss: seq<seq<Request>>)
      modifies this
      ensures levelOn && !yieldOnReturn
      ensures OneTick(old(State()), rss, State())
    {
      if status == SystemMode {
        totalTicks := totalTicks + SYSTEM_TICK;
        systemTicks := systemTicks + SYSTEM_TICK;
      } else {
        totalTicks := totalTicks + USER_TICK;
        userTicks := userTicks + USER_TICK;
      }
      levelOn := false;
      ghost var c := State();
      assert c == Tick(old(State()));
      rss := FireDue();
      ghost var c' := State();
      levelOn := true;
      mustYield := yieldOnReturn;
      yieldOnReturn := false;
      assert State() == c';
    }

    /** Nothing is ready to run: time is advanced to the next interrupt.  False says that
        nothing is left to wait for, and the machine halts. */
    method Idle() returns (continues: bool, ghost rs: seq<Request>, ghost rss: seq<seq<Request>>)
      requires !levelOn
      modifies this
      ensures !levelOn && Future(rs)
      ensures var c := old(State()).(status := IdleMode);
              && continues == CheckIfDue(c, true, rs).1 == (c.pending != [] && !c.OnlyTimerLeft())
              && (!continues ==> State() == CheckIfDue(c, true, rs).0)
              && (continues ==> status == SystemMode)
              && (continues ==> FiredUntilStop(CheckIfDue(c, true, rs).0, rss, State().(status := IdleMode)))
    {
      rss := [];
      status := IdleMode;
      continues, rs := CheckDue(true);
      if continues {
        rss := FireDue();
        yieldOnReturn := false;
        ghost var c := State();
        status := SystemMode;
        assert State().(status := IdleMode) == c;
      }
    }

    /** Enabling interrupts that were disabled lets time pass; handlers may not enable them. */
    method SetLevel(on: bool) returns (wasOn: bool, mustYield: bool, ghost rss: seq<seq<Request>>)
      requires (on ==> !inHandler)
      modifies this
      ensures wasOn == old(levelOn) && levelOn == on
      ensures if on && !wasOn then OneTick(old(State()), rss, State()) else State() == old(State()) && !mustYield
    {
      wasOn, mustYield, rss := levelOn, false, [];
      levelOn := on;
      if on && !wasOn {
        mustYield, rss := Advance();
      }
    }
  }
}
