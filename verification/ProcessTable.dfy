/**
 The process table (threads/ptable.cc, threads/pcb.cc): Exec, Exit and Join, with two semaphores
 per process.  A child stores its exit code, releases its parent's join semaphore and waits for its
 own exit semaphore; a joining parent waits for the first, reads the code and releases the second.
 */
module ProcessTables {
  import opened Words
  import opened Associations
  import opened BitMaps

  /** What a process is doing in the table's code; each constructor names the next action. */
  datatype Activity =
    | Running
    | JoinWait(child: nat)                    // in JoinUpdate, at P on its own join semaphore
    | ReadCode(child: nat)                    // has passed it, about to read the child's code
    | ExitRelease(child: nat, code: int)      // has read it, about to V the child's exit semaphore
    | StoreCode(code: int)                    // in ExitUpdate, about to store the code
    | JoinRelease(code: int)                  // about to V the parent's join semaphore
    | ExitWait(code: int)                     // at P on its own exit semaphore
    | RemoveSelf(code: int)                   // has passed it, about to free its slot
  {
    predicate Exiting() {
      StoreCode? || JoinRelease? || ExitWait? || RemoveSelf?
    }
  }

  /** A process control block.  child and joined record which child is still to be joined. */
  datatype Process = Process(
    name: seq<byte>, parent: int, exitcode: int, join: nat, exit: nat, numwait: int,
    activity: Activity, child: Option<nat>, joined: bool)

  type Table = seq<Option<Process>>

  /** A process in its first state, child of parent. */
  function Fresh(name: seq<byte>, parent: int): Process {
    Process(name, parent, 0, 0, 0, 0, Running, None, false)
  }

  predicate Live(t: Table, p: int) {
    0 <= p < |t| && t[p].Some?
  }

  function Update(t: Table, p: nat, q: Process): Table
    requires p < |t|
  {
    t[p := Some(q)]
  }

  datatype Step =
    | Exec(p: nat, c: nat, name: seq<byte>)
    | BeginExit(p: nat, code: int)
    | BeginJoin(p: nat, c: nat)
    | Next(p: nat)                 // the next action of a process inside Exit or Join

  /** What the code lets happen: a P only completes when its semaphore is positive, Exec takes the
      least free slot and a program other than the caller's, and Join refuses what is not the
      caller's child. */
  ghost predicate Allowed(t: Table, e: Step) {
    match e
    case Exec(p, c, name) =>
      && Live(t, p) && t[p].value.activity == Running && name != t[p].value.name
      && c < |t| && t[c].None? && forall i :: 0 <= i < c ==> t[i].Some?
    case BeginExit(p, _) => Live(t, p) && t[p].value.activity == Running && p != 0
    case BeginJoin(p, c) => Live(t, p) && t[p].value.activity == Running && Live(t, c) && t[c].value.parent == p
    case Next(p) =>
      && Live(t, p) && t[p].value.activity != Running
      && (t[p].value.activity.JoinWait? ==> t[p].value.join > 0)
      && (t[p].value.activity.ExitWait? ==> t[p].value.exit > 0)
  }

  /** The action needs the control block of another process that must not have gone away. */
  ghost predicate Safe(t: Table, e: Step) {
    e.Next? && Live(t, e.p) ==>
      match t[e.p].value.activity
      case ReadCode(c) => Live(t, c)
      case ExitRelease(c, _) => Live(t, c)
      case JoinRelease(_) => Live(t, t[e.p].value.parent)
      case _ => true
  }

  ghost function Do(t: Table, e: Step): Table
    requires Allowed(t, e) && Safe(t, e)
  {
    match e
    case Exec(p, c, name) =>
      var t1 := Update(t, p, t[p].value.(child := Some(c)));
      Update(t1, c, Fresh(name, p))
    case BeginExit(p, code) => Update(t, p, t[p].value.(activity := StoreCode(code)))
    case BeginJoin(p, c) => Update(t, p, t[p].value.(activity := JoinWait(c), numwait := t[p].value.numwait + 1))
    case Next(p) =>
      var q := t[p].value;
      match q.activity
      case JoinWait(c) => Update(t, p, q.(join := q.join - 1, activity := ReadCode(c)))
      case ReadCode(c) => Update(t, p, q.(activity := ExitRelease(c, t[c].value.exitcode), numwait := q.numwait - 1))
      case ExitRelease(c, _) =>
        var t1 := Update(t, p, q.(activity := Running, child := None));
        Update(t1, c, t1[c].value.(exit := t1[c].value.exit + 1, joined := true))
      case StoreCode(code) => Update(t, p, q.(exitcode := code, activity := JoinRelease(code)))
      case JoinRelease(code) =>
        var t1 := Update(t, p, q.(activity := ExitWait(code)));
        Update(t1, q.parent, t1[q.parent].value.(join := t1[q.parent].value.join + 1))
      case ExitWait(code) => Update(t, p, q.(exit := q.exit - 1, activity := RemoveSelf(code)))
      case RemoveSelf(_) => t[p := None]
  }

  /** How processes are expected to behave: one child at a time that is still to be joined, each
      joined once, no exit before that, and no two processes of the same program. */
  ghost predicate Disciplined(t: Table, e: Step) {
    match e
    case Exec(p, _, name) =>
      Live(t, p) && t[p].value.child == None && forall i :: Live(t, i) ==> t[i].value.name != name
    case BeginExit(p, _) => Live(t, p) && t[p].value.child == None
    case BeginJoin(_, c) => Live(t, c) && !t[c].value.joined
    case Next(_) => true
  }

  // ---- the handshake ----

  /** Parent p and its child c that is still to be joined: the join semaphore holds a token
      exactly between the child's release and the parent's wait, and by then the code is stored. */
  ghost predicate Handshake(t: Table, p: nat, c: nat)
    requires Live(t, p)
  {
    && Live(t, c) && c != p
    && var a, b := t[p].value, t[c].value;
       && b.parent == p && !b.joined && b.exit == 0 && !b.activity.RemoveSelf?
       && if b.activity.ExitWait? then
            && b.exitcode == b.activity.code
            && ((a.join == 1 && (a.activity == Running || a.activity == JoinWait(c)))
                || (a.join == 0 && (a.activity == ReadCode(c) || a.activity == ExitRelease(c, b.activity.code))))
          else
            && (b.activity.JoinRelease? ==> b.exitcode == b.activity.code)
            && a.join == 0 && (a.activity == Running || a.activity == JoinWait(c))
  }

  /** A process that was joined only has to pass its exit semaphore and remove itself. */
  ghost predicate Released(q: Process) {
    || (q.activity.ExitWait? && q.exit == 1)
    || (q.activity.RemoveSelf? && q.exit == 0)
  }

  ghost predicate GoodProcess(t: Table, p: nat)
    requires Live(t, p)
  {
    var q := t[p].value;
    && (q.child.Some? ==> Handshake(t, p, q.child.value))
    && (q.child.None? ==> q.join == 0 && (q.activity == Running || q.activity.Exiting()))
    && (q.joined ==> Released(q))
    && (!q.activity.Exiting() || q.activity.StoreCode? ==> q.exitcode == 0)
    && q.numwait == (if q.activity.JoinWait? || q.activity.ReadCode? then 1 else 0)
    && (!q.joined && p != 0 ==> Live(t, q.parent) && t[q.parent].value.child == Some(p))
    && (p == 0 ==> q.parent == -1 && !q.joined && !q.activity.Exiting() && q.exit == 0)
  }

  ghost predicate Inv(t: Table) {
    Live(t, 0) && forall p :: 0 <= p < |t| && t[p].Some? ==> GoodProcess(t, p)
  }

  /** In a consistent table no action touches a control block that is gone. */
  lemma AlwaysSafe(t: Table, e: Step)
    requires Inv(t) && Allowed(t, e)
    ensures Safe(t, e)
  {
    if e.Next? {
      assert GoodProcess(t, e.p);
    }
  }

  lemma ExecKeeps(t: Table, p: nat, c: nat, name: seq<byte>)
    requires Inv(t) && Allowed(t, Exec(p, c, name)) && Disciplined(t, Exec(p, c, name))
    ensures Inv(Do(t, Exec(p, c, name)))
  {
    var t' := Do(t, Exec(p, c, name));
    assert GoodProcess(t, p);
    forall r | 0 <= r < |t'| && t'[r].Some? ensures GoodProcess(t', r) {
      if r != c {
        assert GoodProcess(t, r);
      }
    }
  }

  /** A call of Exit or Join. */
  lemma BeginKeeps(t: Table, e: Step)
    requires Inv(t) && Allowed(t, e) && Disciplined(t, e) && Safe(t, e) && (e.BeginExit? || e.BeginJoin?)
    ensures Inv(Do(t, e))
  {
    var t' := Do(t, e);
    assert GoodProcess(t, e.p);
    forall r | 0 <= r < |t'| && t'[r].Some? ensures GoodProcess(t', r) {
      assert GoodProcess(t, r);
      if r != e.p && t[r].value.child == Some(e.p) {
        assert Handshake(t, r, e.p);
      }
    }
  }

  /** An action inside Exit or Join that changes only process p itself. */
  lemma OwnStepKeeps(t: Table, e: Step)
    requires Inv(t) && Allowed(t, e) && Disciplined(t, e) && Safe(t, e)
    requires e.Next? && (var a := t[e.p].value.activity; a.JoinWait? || a.ReadCode? || a.StoreCode? || a.ExitWait?)
    ensures Inv(Do(t, e))
  {
    var t' := Do(t, e);
    assert GoodProcess(t, e.p);
    forall r | 0 <= r < |t'| && t'[r].Some? ensures GoodProcess(t', r) {
      assert GoodProcess(t, r);
      if r != e.p && t[r].value.child == Some(e.p) {
        assert Handshake(t, r, e.p);
      }
    }
  }

  lemma JoinReleaseKeeps(t: Table, p: nat)
    requires Inv(t) && Allowed(t, Next(p)) && Safe(t, Next(p)) && t[p].value.activity.JoinRelease?
    ensures Inv(Do(t, Next(p)))
  {
    var t' := Do(t, Next(p));
    assert GoodProcess(t, p) && GoodProcess(t, t[p].value.parent);
    forall r | 0 <= r < |t'| && t'[r].Some? ensures GoodProcess(t', r) {
      assert GoodProcess(t, r);
    }
  }

  lemma ExitReleaseKeeps(t: Table, p: nat)
    requires Inv(t) && Allowed(t, Next(p)) && Safe(t, Next(p)) && t[p].value.activity.ExitRelease?
    ensures Inv(Do(t, Next(p)))
  {
    var t' := Do(t, Next(p));
    assert GoodProcess(t, p) && GoodProcess(t, t[p].value.activity.child);
    forall r | 0 <= r < |t'| && t'[r].Some? ensures GoodProcess(t', r) {
      assert GoodProcess(t, r);
    }
  }

  lemma RemoveKeeps(t: Table, p: nat)
    requires Inv(t) && Allowed(t, Next(p)) && Safe(t, Next(p)) && t[p].value.activity.RemoveSelf?
    ensures Inv(Do(t, Next(p)))
  {
    var t' := Do(t, Next(p));
    assert GoodProcess(t, p);
    forall r | 0 <= r < |t'| && t'[r].Some? ensures GoodProcess(t', r) {
      assert GoodProcess(t, r);
    }
  }

  /** Every step of disciplined processes is safe and keeps the table consistent. */
  lemma StepKeepsInv(t: Table, e: Step)
    requires Inv(t) && Allowed(t, e) && Disciplined(t, e)
    ensures Safe(t, e) && Inv(Do(t, e))
  {
    AlwaysSafe(t, e);
    match e
    case Exec(p, c, name) => ExecKeeps(t, p, c, name);
    case BeginExit(_, _) => BeginKeeps(t, e);
    case BeginJoin(_, _) => BeginKeeps(t, e);
    case Next(p) =>
      match t[p].value.activity
      case JoinRelease(_) => JoinReleaseKeeps(t, p);
      case ExitRelease(_, _) => ExitReleaseKeeps(t, p);
      case RemoveSelf(_) => RemoveKeeps(t, p);
      case _ => OwnStepKeeps(t, e);
  }

  // ---- every run ----

  /** Slot 0 holds the main process. */
  ghost predicate Start(t: Table) {
    && |t| > 0 && (forall i :: 0 < i < |t| ==> t[i].None?)
    && t[0].Some? && t[0].value == Fresh(t[0].value.name, -1)
  }

  /** A run: in every state the step is one the code allows. */
  ghost predicate Run(ts: seq<Table>, es: seq<Step>) {
    && |ts| == |es| + 1 && Start(ts[0])
    && forall i {:trigger es[i]} :: 0 <= i < |es| ==>
         Allowed(ts[i], es[i]) && Safe(ts[i], es[i]) && ts[i + 1] == Do(ts[i], es[i])
  }

  ghost predicate AllDisciplined(ts: seq<Table>, es: seq<Step>)
    requires |ts| == |es| + 1
  {
    forall i {:trigger es[i]} :: 0 <= i < |es| ==> Disciplined(ts[i], es[i])
  }

  lemma {:induction false} RunKeepsInv(ts: seq<Table>, es: seq<Step>, n: nat)
    requires Run(ts, es) && AllDisciplined(ts, es) && n < |ts|
    ensures Inv(ts[n])
  {
    if n > 0 {
      RunKeepsInv(ts, es, n - 1);
      assert ts[n - 1 + 1] == Do(ts[n - 1], es[n - 1]);
      StepKeepsInv(ts[n - 1], es[n - 1]);
    }
  }

  /** Join returns only after the child has stored its code, and returns exactly the code the child
      passed to Exit; the child's slot is still there, waiting for the parent's release. */
  lemma JoinReturnsExitCode(ts: seq<Table>, es: seq<Step>, n: nat, p: nat)
    requires Run(ts, es) && AllDisciplined(ts, es) && n < |ts|
    requires Live(ts[n], p) && ts[n][p].value.activity.ExitRelease?
    ensures var a := ts[n][p].value.activity;
            && Live(ts[n], a.child) && ts[n][a.child].value.parent == p
            && ts[n][a.child].value.activity == ExitWait(a.code)
  {
    RunKeepsInv(ts, es, n);
    assert GoodProcess(ts[n], p);
  }

  /** A process frees its slot only after its parent has read its exit code and let it go. */
  lemma FreedAfterJoin(ts: seq<Table>, es: seq<Step>, n: nat, c: nat)
    requires Run(ts, es) && AllDisciplined(ts, es) && n < |ts|
    requires Live(ts[n], c) && ts[n][c].value.activity.RemoveSelf?
    ensures ts[n][c].value.joined
    ensures forall p :: Live(ts[n], p) ==>
              ts[n][p].value.activity != JoinWait(c) && ts[n][p].value.activity != ReadCode(c)
  {
    RunKeepsInv(ts, es, n);
    var t := ts[n];
    assert GoodProcess(t, c);
    forall p | Live(t, p) ensures t[p].value.activity != JoinWait(c) && t[p].value.activity != ReadCode(c) {
      assert GoodProcess(t, p);
    }
  }

  /** Disciplined processes never touch a control block that is gone. */
  lemma RunIsSafe(ts: seq<Table>, es: seq<Step>, n: nat, e: Step)
    requires Run(ts, es) && AllDisciplined(ts, es) && n < |ts| && Allowed(ts[n], e)
    ensures Safe(ts[n], e)
  {
    RunKeepsInv(ts, es, n);
    AlwaysSafe(ts[n], e);
  }

  // ---- the caller is found by its name ----

  /** What the searches of the table return: the last slot whose process has this name. */
  ghost predicate IsCaller(t: Table, name: seq<byte>, r: int) {
    && (r == -1 <==> forall i :: Live(t, i) ==> t[i].value.name != name)
    && (r != -1 ==> Live(t, r) && t[r].value.name == name)
    && (r != -1 ==> forall i :: r < i && Live(t, i) ==> t[i].value.name != name)
  }

  /** The search finds the calling process exactly when no later slot has a process of its name. */
  lemma CallerFound(t: Table, p: nat, r: int)
    requires Live(t, p) && IsCaller(t, t[p].value.name, r)
    ensures r == p <==> forall i :: p < i && Live(t, i) ==> t[i].value.name != t[p].value.name
  {
    assert r >= p;
  }

  ghost predicate Names(t: Table) {
    forall i, j :: Live(t, i) && Live(t, j) && i != j ==> t[i].value.name != t[j].value.name
  }

  lemma StepKeepsNames(t: Table, e: Step)
    requires Names(t) && Allowed(t, e) && Safe(t, e) && Disciplined(t, e)
    ensures Names(Do(t, e))
  {
  }

  lemma {:induction false} RunKeepsNames(ts: seq<Table>, es: seq<Step>, n: nat)
    requires Run(ts, es) && AllDisciplined(ts, es) && n < |ts|
    ensures Names(ts[n])
  {
    if n > 0 {
      RunKeepsNames(ts, es, n - 1);
      assert ts[n - 1 + 1] == Do(ts[n - 1], es[n - 1]);
      StepKeepsNames(ts[n - 1], es[n - 1]);
    }
  }

  /** In every run of disciplined processes each of them is found by its own name. */
  lemma RunFindsCaller(ts: seq<Table>, es: seq<Step>, n: nat, p: nat, r: int)
    requires Run(ts, es) && AllDisciplined(ts, es) && n < |ts|
    requires Live(ts[n], p) && IsCaller(ts[n], ts[n][p].value.name, r)
    ensures r == p
  {
    RunKeepsNames(ts, es, n);
    CallerFound(ts[n], p, r);
  }

  // ---- why the discipline is needed ----

  /** Process p is not inside a Join that has gone wrong, and has not lost the parent it still has to
      release: it waits for a child that is there, has read the code of one that waits to be let go. */
  ghost predicate SoundProcess(t: Table, p: nat)
    requires Live(t, p)
  {
    var q := t[p].value;
    && (p == 0 ==> !q.activity.Exiting())
    && (p != 0 && !(q.joined && (q.activity.ExitWait? || q.activity.RemoveSelf?)) ==> Live(t, q.parent))
    && match q.activity
       case JoinWait(c) => Live(t, c) && t[c].value.parent == p
       case ReadCode(c) => Live(t, c) && t[c].value.parent == p && t[c].value.activity.ExitWait?
       case ExitRelease(c, code) => Live(t, c) && t[c].value.parent == p && t[c].value.activity == ExitWait(code)
       case _ => true
  }

  /** The search for a process's name finds that process. */
  ghost predicate FoundByName(t: Table, p: nat)
    requires Live(t, p)
  {
    forall r :: IsCaller(t, t[p].value.name, r) ==> r == p
  }

  /** All is well: no process is taken for another, and none is in trouble. */
  ghost predicate Sound(t: Table) {
    forall p :: 0 <= p < |t| && t[p].Some? ==> FoundByName(t, p) && SoundProcess(t, p)
  }

  lemma InvIsSound(t: Table)
    requires Inv(t) && Names(t)
    ensures Sound(t)
  {
    forall p | 0 <= p < |t| && t[p].Some? ensures FoundByName(t, p) && SoundProcess(t, p) {
      assert GoodProcess(t, p);
      forall r | IsCaller(t, t[p].value.name, r) ensures r == p {
        CallerFound(t, p, r);
      }
    }
  }

  /** In a sound table nothing that may happen next touches a control block that is gone. */
  lemma SoundIsSafe(t: Table, e: Step)
    requires Sound(t) && Allowed(t, e)
    ensures Safe(t, e)
  {
    if e.Next? {
      assert SoundProcess(t, e.p);
    }
  }

  /** t' is reached from t by the steps es; with discipline, all of them are disciplined. */
  ghost predicate Reaches(discipline: bool, t: Table, es: seq<Step>, t': Table)
    decreases es
  {
    if es == [] then t' == t
    else
      && Allowed(t, es[0]) && Safe(t, es[0]) && (discipline ==> Disciplined(t, es[0]))
      && Reaches(discipline, Do(t, es[0]), es[1..], t')
  }

  lemma ReachesStep(d: bool, t: Table, e: Step, es: seq<Step>, t': Table)
    requires Allowed(t, e) && Safe(t, e) && (d ==> Disciplined(t, e)) && Reaches(d, Do(t, e), es, t')
    ensures Reaches(d, t, [e] + es, t')
  {
    assert ([e] + es)[1..] == es;
  }

  lemma ReachesOne(d: bool, t: Table, e: Step)
    requires Allowed(t, e) && Safe(t, e) && (d ==> Disciplined(t, e))
    ensures Reaches(d, t, [e], Do(t, e))
  {
    ReachesStep(d, t, e, [], Do(t, e));
    assert [e] + [] == [e];
  }

  lemma {:induction false} ReachesJoin(d: bool, t: Table, es: seq<Step>, t1: Table, fs: seq<Step>, t2: Table)
    requires Reaches(d, t, es, t1) && Reaches(d, t1, fs, t2)
    ensures Reaches(d, t, es + fs, t2)
    decreases es
  {
    if es == [] {
      assert es + fs == fs;
    } else {
      ReachesJoin(d, Do(t, es[0]), es[1..], t1, fs, t2);
      assert es + fs == [es[0]] + (es[1..] + fs);
      ReachesStep(d, t, es[0], es[1..] + fs, t2);
    }
  }

  lemma ReachesTwo(d: bool, t: Table, e: Step, f: Step)
    requires Allowed(t, e) && Safe(t, e) && (d ==> Disciplined(t, e))
    requires var t1 := Do(t, e); Allowed(t1, f) && Safe(t1, f) && (d ==> Disciplined(t1, f))
    ensures Reaches(d, t, [e, f], Do(Do(t, e), f))
  {
    ReachesOne(d, Do(t, e), f);
    ReachesStep(d, t, e, [f], Do(Do(t, e), f));
    assert [e] + [f] == [e, f];
  }

  lemma {:induction false} ReachesKeepsNames(t: Table, es: seq<Step>, t': Table)
    requires Names(t) && Reaches(true, t, es, t')
    ensures Names(t')
    decreases es
  {
    if es != [] {
      StepKeepsNames(t, es[0]);
      ReachesKeepsNames(Do(t, es[0]), es[1..], t');
    }
  }

  /** Disciplined continuations of a consistent table stay consistent. */
  lemma {:induction false} ReachesKeeps(t: Table, es: seq<Step>, t': Table)
    requires Inv(t) && Reaches(true, t, es, t')
    ensures Inv(t')
    decreases es
  {
    if es != [] {
      StepKeepsInv(t, es[0]);
      ReachesKeeps(Do(t, es[0]), es[1..], t');
    }
  }

  /** A process that has begun to exit stores its code, releases its parent and waits. */
  lemma FinishRelease(t: Table, c: nat) returns (es: seq<Step>, t': Table)
    requires Live(t, c) && c != 0 && Live(t, t[c].value.parent) && t[c].value.parent != c
    requires var a := t[c].value.activity; a.StoreCode? || (a.JoinRelease? && t[c].value.exitcode == a.code)
    ensures Reaches(true, t, es, t')
    ensures var q := t[c].value;
            t' == Update(Update(t, c, q.(exitcode := q.activity.code, activity := ExitWait(q.activity.code))),
                         q.parent, t[q.parent].value.(join := t[q.parent].value.join + 1))
  {
    if t[c].value.activity.StoreCode? {
      ReachesTwo(true, t, Next(c), Next(c));
      es, t' := [Next(c), Next(c)], Do(Do(t, Next(c)), Next(c));
    } else {
      ReachesOne(true, t, Next(c));
      es, t' := [Next(c)], Do(t, Next(c));
    }
  }

  /** From Exit to waiting for the exit semaphore. */
  lemma ExitRuns(t: Table, c: nat, code: int) returns (es: seq<Step>, t': Table)
    requires Live(t, c) && c != 0 && t[c].value.activity == Running && t[c].value.child == None
    requires Live(t, t[c].value.parent) && t[c].value.parent != c
    ensures Reaches(true, t, es, t')
    ensures var q := t[c].value;
            t' == Update(Update(t, c, q.(exitcode := code, activity := ExitWait(code))),
                         q.parent, t[q.parent].value.(join := t[q.parent].value.join + 1))
  {
    ReachesOne(true, t, BeginExit(c, code));
    var t1 := Do(t, BeginExit(c, code));
    var fs, t2 := FinishRelease(t1, c);
    ReachesJoin(true, t, [BeginExit(c, code)], t1, fs, t2);
    es, t' := [BeginExit(c, code)] + fs, t2;
  }

  /** From waiting in Join to having read the code, once the join semaphore is positive. */
  lemma JoinEnds(t: Table, p: nat, c: nat) returns (es: seq<Step>, t': Table)
    requires Live(t, p) && t[p].value.activity == JoinWait(c) && t[p].value.join > 0 && Live(t, c) && c != p
    ensures Reaches(true, t, es, t')
    ensures t' == Update(t, p, t[p].value.(join := t[p].value.join - 1, numwait := t[p].value.numwait - 1,
                                           activity := ExitRelease(c, t[c].value.exitcode)))
  {
    ReachesTwo(true, t, Next(p), Next(p));
    es, t' := [Next(p), Next(p)], Do(Do(t, Next(p)), Next(p));
  }

  lemma JoinRuns(t: Table, p: nat, c: nat) returns (es: seq<Step>, t': Table)
    requires Live(t, p) && t[p].value.activity == Running && t[p].value.join > 0
    requires Live(t, c) && t[c].value.parent == p && c != p && !t[c].value.joined
    ensures Reaches(true, t, es, t')
    ensures t' == Update(t, p, t[p].value.(join := t[p].value.join - 1,
                                           activity := ExitRelease(c, t[c].value.exitcode)))
  {
    ReachesOne(true, t, BeginJoin(p, c));
    var t1 := Do(t, BeginJoin(p, c));
    var fs, t2 := JoinEnds(t1, p, c);
    ReachesJoin(true, t, [BeginJoin(p, c)], t1, fs, t2);
    es, t' := [BeginJoin(p, c)] + fs, t2;
  }

  /** The first child c1 of p has called Exit: its token lets a Join of the second return. */
  lemma FirstTokenTaken(t: Table, p: nat, c1: nat, c: nat) returns (es: seq<Step>, t': Table)
    requires Live(t, p) && Live(t, c1) && Live(t, c) && p != c1 && p != c && c != c1 && c1 != 0
    requires t[p].value.activity == Running && t[c1].value.parent == p && t[c1].value.activity.Exiting()
    requires if t[c1].value.activity.ExitWait? then t[p].value.join > 0
             else !t[c1].value.activity.RemoveSelf?
    requires t[c1].value.activity.JoinRelease? ==> t[c1].value.exitcode == t[c1].value.activity.code
    requires t[c].value == Fresh(t[c].value.name, p)
    ensures Reaches(true, t, es, t')
    ensures Live(t', p) && t'[p].value.activity == ExitRelease(c, 0) && Live(t', c) && t'[c] == t[c]
  {
    if t[c1].value.activity.ExitWait? {
      es, t' := JoinRuns(t, p, c);
    } else {
      var fs, t1 := FinishRelease(t, c1);
      var gs, t2 := JoinRuns(t1, p, c);
      ReachesJoin(true, t, fs, t1, gs, t2);
      es, t' := fs + gs, t2;
    }
  }

  /** The first child c1 of p has not called Exit: the token of the second lets a Join of it return. */
  lemma SecondTokenTaken(t: Table, p: nat, c1: nat, c: nat) returns (es: seq<Step>, t': Table)
    requires Live(t, p) && Live(t, c1) && Live(t, c) && p != c1 && p != c && c != c1 && c != 0
    requires t[p].value.activity == Running && t[c1].value.parent == p && !t[c1].value.joined
    requires t[c1].value.exitcode == 0 && t[c].value == Fresh(t[c].value.name, p)
    ensures Reaches(true, t, es, t')
    ensures Live(t', p) && t'[p].value.activity == ExitRelease(c1, 0) && Live(t', c1) && t'[c1] == t[c1]
  {
    var fs, t1 := ExitRuns(t, c, 0);
    var gs, t2 := JoinRuns(t1, p, c1);
    ReachesJoin(true, t, fs, t1, gs, t2);
    es, t' := fs + gs, t2;
  }

  /** A second child before the first was joined, though of a program of its own: whatever the first one
      is doing, the token of one of them lets a Join of the other return 0 before that one has called Exit. */
  lemma TwoChildrenBreak(t: Table, p: nat, c: nat, name: seq<byte>) returns (es: seq<Step>, t': Table, x: nat)
    requires Inv(t) && Allowed(t, Exec(p, c, name)) && t[p].value.child.Some?
    requires forall i :: Live(t, i) ==> t[i].value.name != name
    ensures Reaches(true, Do(t, Exec(p, c, name)), es, t')
    ensures Live(t', p) && Live(t', x) && t'[p].value.activity == ExitRelease(x, 0)
    ensures !t'[x].value.activity.Exiting() && t'[x].value.parent == p
  {
    assert GoodProcess(t, p);
    var c1 := t[p].value.child.value;
    assert GoodProcess(t, c1);
    var t1 := Do(t, Exec(p, c, name));
    if t[c1].value.activity.Exiting() {
      x := c;
      es, t' := FirstTokenTaken(t1, p, c1, c);
    } else {
      x := c1;
      es, t' := SecondTokenTaken(t1, p, c1, c);
    }
  }

  /** A second process of a program: the search takes the process in the lower slot for the other. */
  lemma SameNameBreaks(t: Table, p: nat, c: nat, i: nat) returns (x: nat)
    requires Names(t) && Live(t, i) && Allowed(t, Exec(p, c, t[i].value.name))
    ensures var t' := Do(t, Exec(p, c, t[i].value.name)); Live(t', x) && !FoundByName(t', x)
  {
    var t' := Do(t, Exec(p, c, t[i].value.name));
    var last: nat;
    x, last := if i < c then i else c, if i < c then c else i;
    assert IsCaller(t', t'[x].value.name, last);
  }

  /** A child that was let go leaves. */
  lemma Leaves(t: Table, c: nat) returns (es: seq<Step>, t': Table)
    requires Live(t, c) && Released(t[c].value)
    ensures Reaches(true, t, es, t') && t' == t[c := None]
  {
    if t[c].value.activity.ExitWait? {
      ReachesTwo(true, t, Next(c), Next(c));
      es, t' := [Next(c), Next(c)], Do(Do(t, Next(c)), Next(c));
    } else {
      ReachesOne(true, t, Next(c));
      es, t' := [Next(c)], Do(t, Next(c));
    }
  }

  /** A child that was joined before, joined again: it leaves, and its parent waits for nobody. */
  lemma SecondJoinBreaks(t: Table, p: nat, c: nat) returns (es: seq<Step>, t': Table)
    requires Inv(t) && Allowed(t, BeginJoin(p, c)) && t[c].value.joined
    ensures Reaches(true, Do(t, BeginJoin(p, c)), es, t')
    ensures Live(t', p) && t'[p].value.activity == JoinWait(c) && !Live(t', c)
  {
    assert GoodProcess(t, c);
    es, t' := Leaves(Do(t, BeginJoin(p, c)), c);
  }

  /** When another child then exits, the parent reads a control block that is gone. */
  lemma SecondJoinTouchesFreed(t: Table, p: nat, c: nat) returns (es: seq<Step>, t': Table)
    requires Inv(t) && Allowed(t, BeginJoin(p, c)) && t[c].value.joined && t[p].value.child.Some?
    requires var x := t[p].value.child.value; Live(t, x) && t[x].value.activity == Running && t[x].value.child == None
    ensures Reaches(true, Do(t, BeginJoin(p, c)), es, t')
    ensures Allowed(t', Next(p)) && !Safe(t', Next(p))
  {
    assert GoodProcess(t, p) && GoodProcess(t, c) && GoodProcess(t, 0);
    var t0 := Do(t, BeginJoin(p, c));
    var fs, t1 := Leaves(t0, c);
    var gs, t2 := ExitRuns(t1, t[p].value.child.value, 0);
    ReachesJoin(true, t0, fs, t1, gs, t2);
    ReachesOne(true, t2, Next(p));
    t' := Do(t2, Next(p));
    ReachesJoin(true, t0, fs + gs, t2, [Next(p)], t');
    es := fs + gs + [Next(p)];
  }

  /** Process g, inside Join, reads the code of p and lets it go, and p leaves. */
  lemma LetGo(t: Table, g: nat, p: nat) returns (es: seq<Step>, t': Table)
    requires Live(t, g) && Live(t, p) && g != p && t[g].value.activity == JoinWait(p) && t[g].value.join > 0
    requires t[p].value.activity.ExitWait? && t[p].value.exit == 0
    ensures Reaches(true, t, es, t')
    ensures |t'| == |t| && t'[p] == None && Live(t', g) && t'[g].value.joined == t[g].value.joined
    ensures t'[g].value.parent == t[g].value.parent && !t'[g].value.activity.Exiting()
    ensures forall k :: 0 <= k < |t| && k != g && k != p ==> t'[k] == t[k]
  {
    var fs, t2 := JoinEnds(t, g, p);
    ReachesOne(true, t2, Next(g));
    var t3 := Do(t2, Next(g));
    ReachesJoin(true, t, fs, t2, [Next(g)], t3);
    var gs, t4 := Leaves(t3, p);
    ReachesJoin(true, t, fs + [Next(g)], t3, gs, t4);
    es, t' := fs + [Next(g)] + gs, t4;
  }

  /** The parent of an exiting process joins it. */
  lemma JoinedAway(t: Table, g: nat, p: nat) returns (es: seq<Step>, t': Table)
    requires Live(t, g) && Live(t, p) && g != p && t[p].value.parent == g && !t[p].value.joined && t[g].value.join > 0
    requires t[g].value.activity == Running || t[g].value.activity == JoinWait(p)
    requires t[p].value.activity.ExitWait? && t[p].value.exit == 0
    ensures Reaches(true, t, es, t')
    ensures |t'| == |t| && t'[p] == None && Live(t', g) && t'[g].value.joined == t[g].value.joined
    ensures t'[g].value.parent == t[g].value.parent && !t'[g].value.activity.Exiting()
    ensures forall k :: 0 <= k < |t| && k != g && k != p ==> t'[k] == t[k]
  {
    if t[g].value.activity == Running {
      ReachesOne(true, t, BeginJoin(g, p));
      var t1 := Do(t, BeginJoin(g, p));
      var fs, t2 := LetGo(t1, g, p);
      ReachesJoin(true, t, [BeginJoin(g, p)], t1, fs, t2);
      es, t' := [BeginJoin(g, p)] + fs, t2;
    } else {
      es, t' := LetGo(t, g, p);
    }
  }

  /** A process that exits before it joined its child: its parent joins it, it leaves, and the child
      has nobody to release. */
  lemma EarlyExitBreaks(t: Table, p: nat, code: int) returns (es: seq<Step>, t': Table, c: nat)
    requires Inv(t) && Allowed(t, BeginExit(p, code)) && t[p].value.child.Some?
    ensures Reaches(true, Do(t, BeginExit(p, code)), es, t')
    ensures t[p].value.child == Some(c) && Live(t, c) && Live(t', c) && c != 0
    ensures t'[c].value.parent == p && !t'[c].value.joined && !Live(t', p)
    ensures t[c].value.child != Some(p) ==> t'[c] == t[c]
  {
    assert GoodProcess(t, p);
    c := t[p].value.child.value;
    var g := t[p].value.parent;
    assert GoodProcess(t, g) && GoodProcess(t, c) && GoodProcess(t, 0);
    var t1 := Do(t, BeginExit(p, code));
    var fs, t2 := FinishRelease(t1, p);
    var gs, t3 := JoinedAway(t2, g, p);
    ReachesJoin(true, t1, fs, t2, gs, t3);
    es, t' := fs + gs, t3;
  }

  /** When such a child calls Exit, it releases a parent whose control block is gone. */
  lemma OrphanTouchesFreed(t: Table, p: nat, code: int) returns (es: seq<Step>, t': Table, c: nat)
    requires Inv(t) && Allowed(t, BeginExit(p, code)) && t[p].value.child.Some?
    requires var x := t[p].value.child.value; Live(t, x) && t[x].value.activity == Running && t[x].value.child == None
    ensures Reaches(true, Do(t, BeginExit(p, code)), es, t')
    ensures Allowed(t', Next(c)) && !Safe(t', Next(c))
  {
    var fs, t1, x := EarlyExitBreaks(t, p, code);
    c := x;
    ReachesTwo(true, t1, BeginExit(c, 0), Next(c));
    t' := Do(Do(t1, BeginExit(c, 0)), Next(c));
    ReachesJoin(true, Do(t, BeginExit(p, code)), fs, t1, [BeginExit(c, 0), Next(c)], t');
    es := fs + [BeginExit(c, 0), Next(c)];
  }

  /** Every undisciplined step can be continued, by disciplined steps only, into trouble. */
  lemma UndisciplinedBreaks(t: Table, e: Step) returns (es: seq<Step>, t': Table)
    requires Inv(t) && Names(t) && Allowed(t, e) && Safe(t, e) && !Disciplined(t, e)
    ensures Reaches(true, Do(t, e), es, t') && !Sound(t')
  {
    match e
    case Exec(p, c, name) =>
      if i: nat :| Live(t, i) && t[i].value.name == name {
        es, t' := [], Do(t, e);
        var x := SameNameBreaks(t, p, c, i);
      } else {
        var x;
        es, t', x := TwoChildrenBreak(t, p, c, name);
        assert !SoundProcess(t', p);
      }
    case BeginExit(p, code) =>
      var c;
      es, t', c := EarlyExitBreaks(t, p, code);
      assert !SoundProcess(t', c);
    case BeginJoin(p, c) =>
      es, t' := SecondJoinBreaks(t, p, c);
      assert !SoundProcess(t', p);
  }

  /** Whatever disciplined steps follow, no process gets into trouble. */
  ghost predicate SoundFuture(t: Table) {
    forall es, t' :: Reaches(true, t, es, t') ==> Sound(t')
  }

  lemma DisciplinedFuture(t: Table)
    requires Inv(t) && Names(t)
    ensures SoundFuture(t)
  {
    forall es, t' | Reaches(true, t, es, t') ensures Sound(t') {
      ReachesKeeps(t, es, t');
      ReachesKeepsNames(t, es, t');
      InvIsSound(t');
    }
  }

  /** The discipline is exact: a step keeps every disciplined future sound if and only if it is itself
      disciplined. */
  lemma DisciplineIsExact(t: Table, e: Step)
    requires Inv(t) && Names(t) && Allowed(t, e)
    ensures Safe(t, e)
    ensures Disciplined(t, e) <==> SoundFuture(Do(t, e))
  {
    AlwaysSafe(t, e);
    if Disciplined(t, e) {
      StepKeepsInv(t, e);
      StepKeepsNames(t, e);
      DisciplinedFuture(Do(t, e));
    } else {
      var es, t' := UndisciplinedBreaks(t, e);
      assert Reaches(true, Do(t, e), es, t') && !Sound(t');
    }
  }

  // ---- the table's methods ----

  const MAX_PROCESS := 10

  ghost function Used(t: Table): set<nat> {
    set i: nat | i < |t| && t[i].Some?
  }

  ghost predicate Full(t: Table) {
    forall i :: 0 <= i < |t| ==> t[i].Some?
  }

  /** An Exec that gets as far as a free slot, by a thread that is not in the table. */
  ghost predicate LosesSlot(t: Table, current: seq<byte>, name: Option<seq<byte>>, opens: bool) {
    name != None && opens && name != Some(current) && !Full(t) && IsCaller(t, current, -1)
  }

  datatype JoinResult = Refused | Waits | OutOfBounds

  datatype ExitResult = NotFound | Halts | Leaves(index: nat)

  class PTable {
    const pcb: array<Option<Process>>
    const bm: BitMap

    ghost predicate Shape() {
      pcb.Length == MAX_PROCESS && bm.Valid() && bm.numBits == MAX_PROCESS
    }

    /** The bitmap marks exactly the slots in use. */
    ghost predicate Valid()
      reads pcb, bm.words
    {
      Shape() && bm.Marked() == Used(pcb[..])
    }

    constructor (name: seq<byte>)
      ensures Valid() && Start(pcb[..]) && Inv(pcb[..]) && fresh(pcb) && fresh(bm) && fresh(bm.words)
    {
      var bits := new BitMap(MAX_PROCESS);
      pcb := new Option<Process>[MAX_PROCESS](_ => None);
      bm := bits;
      new;
      pcb[0] := Some(Fresh(name, -1));
      bm.Mark(0);
    }

    method FindCaller(name: seq<byte>) returns (index: int)
      requires Shape()
      ensures IsCaller(pcb[..], name, index)
    {
      index := -1;
      var i := 0;
      while i < MAX_PROCESS
        invariant 0 <= i <= MAX_PROCESS && -1 <= index < i
        invariant index == -1 ==> forall k :: 0 <= k < i && pcb[k].Some? ==> pcb[k].value.name != name
        invariant index != -1 ==> pcb[index].Some? && pcb[index].value.name == name
        invariant index != -1 ==> forall k :: index < k < i && pcb[k].Some? ==> pcb[k].value.name != name
      {
        if pcb[i].Some? && pcb[i].value.name == name {
          index := i;
        }
        i := i + 1;
      }
    }

    /** Starts a process of program name for the running thread, whose name is current; refuses
        exactly in the listed cases.  One refusal costs a slot: its bit stays marked with no process
        behind it. */
    method ExecUpdate(current: seq<byte>, name: Option<seq<byte>>, opens: bool) returns (pid: int)
      requires Valid()
      requires forall p :: IsCaller(pcb[..], current, p) && p != -1 ==> pcb[p].value.activity == Running
      modifies pcb, bm.words
      ensures pid == -1 <==>
                || name == None || !opens || name == Some(current)
                || Full(old(pcb[..])) || IsCaller(old(pcb[..]), current, -1)
      ensures pid == -1 ==> pcb[..] == old(pcb[..])
      ensures pid != -1 ==> pid >= 0 && exists p: nat ::
                && IsCaller(old(pcb[..]), current, p)
                && Allowed(old(pcb[..]), Exec(p, pid, name.value))
                && pcb[..] == Do(old(pcb[..]), Exec(p, pid, name.value))
      ensures Valid() <==> !LosesSlot(old(pcb[..]), current, name, opens)
      ensures pid == -1 && Valid() ==> bm.Marked() == old(bm.Marked())
      ensures !Valid() ==> exists slot: nat ::
                IsLeastClear(old(bm.Marked()), MAX_PROCESS, slot) && bm.Marked() == old(bm.Marked()) + {slot}
    {
      if name == None || !opens || current == name.value {
        return -1;
      }
      ghost var t := pcb[..];
      pid := bm.Find();
      if pid == -1 {
        forall i | 0 <= i < MAX_PROCESS ensures pcb[i].Some? {
          assert i !in Clear(Used(t), MAX_PROCESS);
        }
        return;
      }
      assert pid !in Used(t);
      var p := FindCaller(current);
      if p == -1 {
        return -1;
      }
      assert Allowed(t, Exec(p, pid, name.value)) by {
        forall i | 0 <= i < pid ensures t[i].Some? {
          assert i in Used(t);
        }
      }
      Install(p, pid, name.value);
    }

    method Install(p: nat, pid: nat, name: seq<byte>)
      requires Shape() && bm.Marked() == Used(pcb[..]) + {pid} && Allowed(pcb[..], Exec(p, pid, name))
      modifies pcb, bm.words
      ensures Valid() && pcb[..] == Do(old(pcb[..]), Exec(p, pid, name))
    {
      pcb[p] := Some(pcb[p].value.(child := Some(pid)));
      pcb[pid] := Some(Fresh(name, p));
      bm.Mark(pid);
    }

    /** The search at the head of ExitUpdate. */
    method BeginExit(current: seq<byte>, code: int) returns (r: ExitResult)
      requires Valid()
      requires forall p :: IsCaller(pcb[..], current, p) && p != -1 ==> pcb[p].value.activity == Running
      modifies pcb
      ensures Valid()
      ensures r.NotFound? <==> IsCaller(old(pcb[..]), current, -1)
      ensures r.Halts? <==> IsCaller(old(pcb[..]), current, 0)
      ensures r.Leaves? ==>
                && IsCaller(old(pcb[..]), current, r.index)
                && Allowed(old(pcb[..]), Step.BeginExit(r.index, code))
                && pcb[..] == Do(old(pcb[..]), Step.BeginExit(r.index, code))
      ensures !r.Leaves? ==> pcb[..] == old(pcb[..])
    {
      var index := FindCaller(current);
      if index == -1 {
        return NotFound;
      }
      if index == 0 {
        return Halts;
      }
      pcb[index] := Some(pcb[index].value.(activity := StoreCode(code)));
      r := Leaves(index);
    }

    /** The tests and the search at the head of JoinUpdate.  A thread that is not in the table and
        names the main process, whose parent is -1 too, makes the source index the table with -1. */
    method BeginJoin(current: seq<byte>, id: int) returns (r: JoinResult)
      requires Valid()
      requires forall p :: IsCaller(pcb[..], current, p) && p != -1 ==> pcb[p].value.activity == Running
      modifies pcb
      ensures Valid()
      ensures r != Refused <==> Live(old(pcb[..]), id) && IsCaller(old(pcb[..]), current, old(pcb[..])[id].value.parent)
      ensures r == OutOfBounds <==> r != Refused && old(pcb[..])[id].value.parent == -1
      ensures r != Waits ==> pcb[..] == old(pcb[..])
      ensures r == Waits ==> var p := old(pcb[..])[id].value.parent;
                && p >= 0 && Allowed(old(pcb[..]), Step.BeginJoin(p, id))
                && pcb[..] == Do(old(pcb[..]), Step.BeginJoin(p, id))
    {
      if id < 0 || id >= MAX_PROCESS {
        return Refused;
      }
      var p := FindCaller(current);
      if pcb[id] == None || pcb[id].value.parent != p {
        return Refused;
      }
      if p == -1 {
        return OutOfBounds;
      }
      pcb[p] := Some(pcb[p].value.(activity := JoinWait(id), numwait := pcb[p].value.numwait + 1));
      r := Waits;
    }

    /** The next action of a process inside Exit or Join. */
    method Advance(p: nat)
      requires Valid() && Allowed(pcb[..], Next(p)) && Safe(pcb[..], Next(p))
      modifies pcb, bm.words
      ensures Valid() && pcb[..] == Do(old(pcb[..]), Next(p))
    {
      var q := pcb[p].value;
      match q.activity {
        case JoinWait(c) => pcb[p] := Some(q.(join := q.join - 1, activity := ReadCode(c)));
        case ReadCode(c) =>
          pcb[p] := Some(q.(activity := ExitRelease(c, pcb[c].value.exitcode), numwait := q.numwait - 1));
        case ExitRelease(c, _) =>
          pcb[p] := Some(q.(activity := Running, child := None));
          pcb[c] := Some(pcb[c].value.(exit := pcb[c].value.exit + 1, joined := true));
        case StoreCode(code) => pcb[p] := Some(q.(exitcode := code, activity := JoinRelease(code)));
        case JoinRelease(code) =>
          pcb[p] := Some(q.(activity := ExitWait(code)));
          pcb[q.parent] := Some(pcb[q.parent].value.(join := pcb[q.parent].value.join + 1));
        case ExitWait(code) => pcb[p] := Some(q.(exit := q.exit - 1, activity := RemoveSelf(code)));
        case RemoveSelf(_) => Remove(p);
      }
    }

    method Remove(pid: int)
      requires Valid()
      modifies pcb, bm.words
      ensures Valid()
      ensures pcb[..] == if Live(old(pcb[..]), pid) then old(pcb[..])[pid := None] else old(pcb[..])
    {
      if pid < 0 || pid >= MAX_PROCESS || pcb[pid] == None {
        return;
      }
      pcb[pid] := None;
      bm.ClearBit(pid);
    }
  }
}
