// The scheduler: a ready list sorted by priority, and the current thread.

module Schedulers {
  import opened Options
  import opened LinkedLists

  datatype Status = JustCreated | Running | Ready | Blocked | Zombie
  datatype Thread = Thread(status: Status, priority: int)

  const DEFAULT_PRIORITY: int := 20
  const MAX_PRIORITY: int := 40

  /** A lower number is a better priority. `arrived` and `clock` are history: when each
      thread was last made ready. */
  datatype Sched = Sched(
    threads: map<nat, Thread>, ready: seq<nat>, cur: nat, arrived: map<nat, nat>, clock: nat)

  function Prios(threads: map<nat, Thread>): map<nat, int> {
    map t | t in threads :: threads[t].priority
  }

  predicate ReadyKnown(s: Sched) {
    forall x :: x in s.ready ==> x in s.threads
  }

  function WithStatus(s: Sched, t: nat, st: Status): Sched
    requires t in s.threads
  {
    s.(threads := s.threads[t := s.threads[t].(status := st)])
  }

  /** `Scheduler::ReadyToRun`. */
  function MadeReady(s: Sched, t: nat): Sched
    requires t in s.threads && ReadyKnown(s)
  {
    WithStatus(s, t, Ready).(
      ready := Inserted(Prios(s.threads), s.ready, t),
      arrived := s.arrived[t := s.clock], clock := s.clock + 1)
  }

  /** `Scheduler::FindNextToRun` and `Scheduler::Run`. */
  function RunNext(s: Sched): Sched
    requires s.ready != [] && s.ready[0] in s.threads
  {
    WithStatus(s, s.ready[0], Running).(cur := s.ready[0], ready := s.ready[1..])
  }

  function Clamped(p: int): int {
    if p < 0 then 0 else if p > MAX_PRIORITY then MAX_PRIORITY else p
  }

  // ---------------------------------------------------------------- the invariant

  /** x is due before y: it has a better priority, or the same and has waited longer. */
  ghost predicate Before(s: Sched, x: nat, y: nat) {
    && x in s.threads && y in s.threads && x in s.arrived && y in s.arrived
    && var p, q := s.threads[x].priority, s.threads[y].priority;
       p < q || (p == q && s.arrived[x] < s.arrived[y])
  }

  ghost predicate InOrder(s: Sched) {
    forall i, j :: 0 <= i < j < |s.ready| ==> Before(s, s.ready[i], s.ready[j])
  }

  /** The ready list holds exactly the READY threads, in order (and so each once); no
      thread but the current one is RUNNING. */
  ghost predicate Inv(s: Sched) {
    && s.cur in s.threads
    && (forall t :: t in s.threads && s.threads[t].status == Running ==> t == s.cur)
    && (forall t :: t in s.ready <==> t in s.threads && s.threads[t].status == Ready)
    && (forall t :: t in s.ready ==> t in s.arrived)
    && (forall t :: t in s.arrived ==> s.arrived[t] < s.clock)
    && InOrder(s)
  }

  lemma InsertedBetween(s: Sched, t: nat, i: nat)
    requires Inv(s) && t in s.threads && s.threads[t].status != Ready && i < |s.ready|
    ensures s.ready[i] in s.ready && s.ready[i] != t
    ensures var k := InsertPos(Prios(s.threads), s.ready, s.threads[t].priority, 0);
      if i < k then Before(MadeReady(s, t), s.ready[i], t) else Before(MadeReady(s, t), t, s.ready[i])
  {
    hide Inserted;
    assert s.ready[i] in s.ready;
    var k := InsertPos(Prios(s.threads), s.ready, s.threads[t].priority, 0);
    if k < i {
      assert Before(s, s.ready[k], s.ready[i]);
    }
  }

  lemma StillBefore(s: Sched, t: nat, i: nat, j: nat)
    requires Inv(s) && t in s.threads && s.threads[t].status != Ready && i < j < |s.ready|
    ensures Before(MadeReady(s, t), s.ready[i], s.ready[j])
  {
    hide Inserted;
    assert s.ready[i] in s.ready && s.ready[j] in s.ready;
    assert Before(s, s.ready[i], s.ready[j]);
  }

  lemma InsertedOrder(s: Sched, t: nat)
    requires Inv(s) && t in s.threads && s.threads[t].status != Ready
    ensures InOrder(MadeReady(s, t))
  {
    var s' := MadeReady(s, t);
    var k := InsertPos(Prios(s.threads), s.ready, s.threads[t].priority, 0);
    assert s'.ready == s.ready[..k] + [t] + s.ready[k..];
    assert ReadyKnown(s);
    hide Before, Inserted, InsertPos, MadeReady, Inv;
    forall i, j | 0 <= i < j < |s'.ready| ensures Before(s', s'.ready[i], s'.ready[j]) {
      var a, b := if i <= k then i else i - 1, if j <= k then j else j - 1;
      if i == k {
        InsertedBetween(s, t, b);
      } else if j == k {
        InsertedBetween(s, t, a);
      } else {
        StillBefore(s, t, a, b);
      }
    }
  }

  lemma InsertedIn(prio: map<nat, int>, xs: seq<nat>, t: nat)
    requires t in prio && forall x :: x in xs ==> x in prio
    ensures forall x :: x in Inserted(prio, xs, t) <==> x in xs || x == t
  {
    var k := InsertPos(prio, xs, prio[t], 0);
    assert xs == xs[..k] + xs[k..];
  }

  lemma InsertedHas(prio: map<nat, int>, xs: seq<nat>, t: nat)
    requires t in prio && forall x :: x in xs ==> x in prio
    ensures multiset(Inserted(prio, xs, t)) == multiset(xs) + multiset{t}
  {
    var k := InsertPos(prio, xs, prio[t], 0);
    assert xs == xs[..k] + xs[k..];
  }

  /** One more READY thread: all of the invariant but the order. */
  lemma OneMoreReady(s: Sched, t: nat, xs: seq<nat>)
    requires Inv(s) && t in s.threads && s.threads[t].status != Ready
    requires forall x :: x in xs <==> x in s.ready || x == t
    ensures var s' := WithStatus(s, t, Ready).(ready := xs, arrived := s.arrived[t := s.clock], clock := s.clock + 1);
      InOrder(s') ==> Inv(s')
  {
    hide InOrder;
  }

  lemma ReadyKeeps(s: Sched, t: nat)
    requires Inv(s) && t in s.threads && s.threads[t].status != Ready
    ensures Inv(MadeReady(s, t))
  {
    InsertedOrder(s, t);
    assert ReadyKnown(s);
    hide Inv, InOrder, Inserted;
    InsertedIn(Prios(s.threads), s.ready, t);
    OneMoreReady(s, t, MadeReady(s, t).ready);
  }

  lemma NotBeforeSelf(s: Sched, t: nat)
    ensures !Before(s, t, t)
  {
  }

  lemma FirstIsBest(s: Sched, u: nat)
    requires InOrder(s) && s.ready != [] && u in s.ready[1..]
    ensures Before(s, s.ready[0], u) && u in s.ready && u != s.ready[0]
  {
    NotBeforeSelf(s, u);
    hide Before;
    var i :| 0 <= i < |s.ready[1..]| && s.ready[1..][i] == u;
    assert s.ready[i + 1] == u && Before(s, s.ready[0], s.ready[i + 1]);
  }

  lemma RunOrder(s: Sched)
    requires InOrder(s) && s.ready != [] && s.ready[0] in s.threads
    ensures InOrder(RunNext(s))
  {
    var s' := RunNext(s);
    forall i, j | 0 <= i < j < |s'.ready| ensures Before(s', s'.ready[i], s'.ready[j]) {
      assert Before(s, s.ready[i + 1], s.ready[j + 1]);
    }
  }

  lemma RunKeeps(s: Sched)
    requires Inv(s) && s.ready != [] && s.threads[s.cur].status != Running
    ensures s.ready[0] in s.threads && Inv(RunNext(s)) && RunNext(s).threads[RunNext(s).cur].status == Running
    ensures forall u :: u in RunNext(s).ready ==> Before(s, RunNext(s).cur, u)
  {
    hide InOrder, Before;
    var t := s.ready[0];
    assert t in s.ready;
    RunOrder(s);
    forall u | u in s.ready[1..] ensures Before(s, t, u) && u != t {
      FirstIsBest(s, u);
    }
    assert s.ready == [t] + s.ready[1..];
  }

  // ---------------------------------------------------------------- steps

  /** `Doze` is `Thread::Sleep`: with nobody ready, the processor idles until `Resume`. */
  datatype Event =
    | Create(t: nat)
    | Wake(t: nat)
    | Nice(p: int)
    | Yield
    | Doze(st: Status)
    | Resume
    | Delete(t: nat)

  predicate Runs(s: Sched) {
    s.cur in s.threads && s.threads[s.cur].status == Running
  }

  predicate Enabled(s: Sched, e: Event) {
    && s.cur in s.threads && ReadyKnown(s)
    && match e
       case Create(t) => t !in s.threads
       case Wake(t) => t in s.threads && s.threads[t].status in {JustCreated, Blocked}
       case Nice(_) => Runs(s)
       case Yield => Runs(s)
       case Doze(st) => Runs(s) && st in {Blocked, Zombie}
       case Resume => !Runs(s) && s.ready != []
       case Delete(t) => t in s.threads && t != s.cur && s.threads[t].status == Zombie
  }

  lemma YieldReady(s: Sched)
    requires s.cur in s.threads && ReadyKnown(s)
    ensures MadeReady(s, s.cur).ready != [] && ReadyKnown(MadeReady(s, s.cur))
    ensures MadeReady(s, s.cur).ready[0] in MadeReady(s, s.cur).ready
  {
    InsertedIn(Prios(s.threads), s.ready, s.cur);
  }

  function Next(s: Sched, e: Event): Sched
    requires Enabled(s, e)
  {
    match e
    case Create(t) => s.(threads := s.threads[t := Thread(JustCreated, DEFAULT_PRIORITY)])
    case Wake(t) => MadeReady(s, t)
    case Nice(p) =>
      var me := s.threads[s.cur];
      s.(threads := s.threads[s.cur := me.(priority := Clamped(me.priority + p))])
    case Yield =>
      YieldReady(s);
      RunNext(MadeReady(s, s.cur))
    case Doze(st) =>
      var s' := WithStatus(s, s.cur, st);
      if s.ready == [] then s' else assert s.ready[0] in s.ready; RunNext(s')
    case Resume => assert s.ready[0] in s.ready; RunNext(s)
    case Delete(t) => s.(threads := s.threads - {t})
  }

  lemma QuietKeeps(s: Sched, e: Event)
    requires Inv(s) && Enabled(s, e) && (e.Create? || e.Nice? || e.Delete?)
    ensures Inv(Next(s, e)) && Next(s, e).ready == s.ready
  {
    var s' := Next(s, e);
    forall i, j | 0 <= i < j < |s.ready| ensures Before(s', s.ready[i], s.ready[j]) {
      assert Before(s, s.ready[i], s.ready[j]) && s.ready[i] in s.ready && s.ready[j] in s.ready;
    }
    hide Before;
  }

  lemma DozeKeeps(s: Sched, st: Status)
    requires Inv(s) && Runs(s) && st in {Blocked, Zombie}
    ensures Inv(WithStatus(s, s.cur, st))
  {
    var s' := WithStatus(s, s.cur, st);
    forall i, j | 0 <= i < j < |s.ready| ensures Before(s', s.ready[i], s.ready[j]) {
      assert Before(s, s.ready[i], s.ready[j]) && s.ready[i] in s.ready && s.ready[j] in s.ready;
    }
  }

  /** A thread that raises its number becomes no more urgent, and its priority stays
      within 0..40. */
  lemma NiceIsNice(s: Sched, p: int)
    requires Enabled(s, Nice(p))
    ensures var was, now := s.threads[s.cur].priority, Next(s, Nice(p)).threads[s.cur].priority;
      && 0 <= now <= 40
      && (p >= 0 && was <= 40 ==> was <= now) && (p <= 0 && was >= 0 ==> now <= was)
  {
  }

  /** Between steps one thread is RUNNING, unless the processor is idle. */
  lemma StepKeeps(s: Sched, e: Event)
    requires Inv(s) && Enabled(s, e)
    ensures Inv(Next(s, e))
    ensures !Runs(Next(s, e)) ==> !Runs(s) || (e.Doze? && s.ready == [])
  {
    match e {
      case Wake(t) => ReadyKeeps(s, t);
      case Yield =>
        YieldReady(s);
        ReadyKeeps(s, s.cur);
        hide Inv, Inserted;
        RunKeeps(MadeReady(s, s.cur));
      case Doze(st) =>
        DozeKeeps(s, st);
        hide Inv;
        if s.ready != [] {
          RunKeeps(WithStatus(s, s.cur, st));
        }
      case Resume => RunKeeps(s);
      case _ => QuietKeeps(s, e);
    }
  }

  /** What happened before the processor was given away. */
  function Giving(s: Sched, e: Event): Sched
    requires Enabled(s, e)
  {
    match e
    case Yield => MadeReady(s, s.cur)
    case Doze(st) => WithStatus(s, s.cur, st)
    case _ => s
  }

  predicate Dispatches(s: Sched, e: Event) {
    e.Yield? || e.Resume? || (e.Doze? && s.ready != [])
  }

  lemma GivingKeeps(s: Sched, e: Event)
    requires Inv(s) && Enabled(s, e) && Dispatches(s, e)
    ensures var g := Giving(s, e);
      Inv(g) && g.ready != [] && g.ready[0] in g.threads && !Runs(g) && Next(s, e) == RunNext(g)
  {
    match e {
      case Yield =>
        YieldReady(s);
        ReadyKeeps(s, s.cur);
      case Doze(st) => DozeKeeps(s, st);
      case Resume =>
    }
    hide InOrder, Inserted;
  }

  /** The processor always goes to the READY thread that is due first. */
  lemma BestIsDispatched(s: Sched, e: Event)
    requires Inv(s) && Enabled(s, e) && Dispatches(s, e)
    ensures var g, s' := Giving(s, e), Next(s, e);
      && s'.cur in g.threads && g.threads[s'.cur].status == Ready && Runs(s')
      && (forall u :: u in g.threads && g.threads[u].status == Ready && u != s'.cur ==> Before(g, s'.cur, u))
  {
    GivingKeeps(s, e);
    var g := Giving(s, e);
    hide InOrder, Before, Giving, Next, Enabled;
    RunKeeps(g);
    assert g.ready == [g.ready[0]] + g.ready[1..];
  }

  // ---------------------------------------------------------------- how long a thread waits

  /** The step brings in nobody with a better priority than t's. */
  ghost predicate NoBetter(s: Sched, e: Event, t: nat)
    requires t in s.threads && Enabled(s, e)
  {
    && (e.Wake? ==> s.threads[e.t].priority >= s.threads[t].priority)
    && (e.Yield? ==> s.threads[s.cur].priority >= s.threads[t].priority)
  }

  ghost predicate At(s: Sched, t: nat, k: nat) {
    k < |s.ready| && s.ready[k] == t
  }

  lemma InsertedBehind(s: Sched, u: nat, t: nat, k: nat)
    requires Inv(s) && At(s, t, k) && u in s.threads && t in s.threads
    requires s.threads[u].priority >= s.threads[t].priority
    ensures At(MadeReady(s, u), t, k)
  {
    forall i | 0 <= i < k
      ensures s.ready[i] in s.ready && s.threads[s.ready[i]].priority <= s.threads[t].priority
    {
      assert Before(s, s.ready[i], s.ready[k]);
    }
  }

  /** A step that gives the processor away moves t up by one; no other step moves it. */
  lemma MovesUp(s: Sched, e: Event, t: nat, k: nat)
    requires Inv(s) && Enabled(s, e) && At(s, t, k) && t in s.threads && NoBetter(s, e, t)
    ensures if !Dispatches(s, e) then At(Next(s, e), t, k)
            else if k == 0 then Next(s, e).cur == t && Runs(Next(s, e))
            else At(Next(s, e), t, k - 1)
  {
    assert s.ready[k] in s.ready;
    StepKeeps(s, e);
    match e {
      case Wake(u) => InsertedBehind(s, u, t, k);
      case Yield =>
        YieldReady(s);
        InsertedBehind(s, s.cur, t, k);
      case _ =>
    }
    hide Inserted, InOrder;
  }

  ghost predicate IsRun(ss: seq<Sched>, es: seq<Event>) {
    && |ss| == |es| + 1 && Inv(ss[0])
    && (forall i :: 0 <= i < |es| ==> Enabled(ss[i], es[i]) && ss[i + 1] == Next(ss[i], es[i]))
  }

  /** How often the processor was given away. */
  ghost function Turns(ss: seq<Sched>, es: seq<Event>): (n: nat)
    requires |ss| == |es| + 1
    decreases |es|
  {
    if es == [] then 0
    else (if Dispatches(ss[0], es[0]) then 1 else 0) + Turns(ss[1..], es[1..])
  }

  /** While t waits, nobody with a better priority becomes ready. */
  ghost predicate Undisturbed(ss: seq<Sched>, es: seq<Event>, t: nat) {
    |ss| == |es| + 1 &&
    forall i :: 0 <= i < |es| ==> Enabled(ss[i], es[i]) && (t in ss[i].threads ==> NoBetter(ss[i], es[i], t))
  }

  ghost predicate GotTurn(ss: seq<Sched>, t: nat) {
    exists i :: 0 <= i < |ss| && ss[i].cur == t && Runs(ss[i])
  }

  /** A thread at place k of the ready list runs within k + 1 turns. */
  lemma {:induction false} BoundedWait(ss: seq<Sched>, es: seq<Event>, t: nat, k: nat)
    requires IsRun(ss, es) && Undisturbed(ss, es, t) && At(ss[0], t, k) && Turns(ss, es) >= k + 1
    ensures GotTurn(ss, t)
    decreases |es|
  {
    var s, e := ss[0], es[0];
    assert s.ready[k] in s.ready;
    MovesUp(s, e, t, k);
    StepKeeps(s, e);
    hide Inv, Next, Enabled, NoBetter, Dispatches;
    if Dispatches(s, e) && k == 0 {
      assert ss[1].cur == t && Runs(ss[1]);
    } else {
      BoundedWait(ss[1..], es[1..], t, if Dispatches(s, e) then k - 1 else k);
      var i :| 0 <= i < |ss[1..]| && ss[1..][i].cur == t && Runs(ss[1..][i]);
      assert ss[i + 1] == ss[1..][i];
    }
  }

  /** The threads that are RUNNING. */
  ghost function RunningThreads(s: Sched): set<nat> {
    set t | t in s.threads && s.threads[t].status == Running
  }

  /** The thread went to sleep at step k with nobody ready, and nobody has run since. */
  ghost predicate IdleSince(ss: seq<Sched>, es: seq<Event>, k: nat, n: nat) {
    && k < n <= |es| < |ss| && es[k].Doze? && ss[k].ready == []
    && (forall i :: k < i <= n ==> !Runs(ss[i]))
  }

  /** In every state of every run the invariant holds. If a thread was running at first,
      then exactly the current thread is RUNNING, or none is, since a sleep with nobody
      ready. */
  lemma {:induction false} AlwaysInv(ss: seq<Sched>, es: seq<Event>, n: nat)
    requires IsRun(ss, es) && n <= |es|
    ensures Inv(ss[n])
    ensures Runs(ss[0]) ==>
      || RunningThreads(ss[n]) == {ss[n].cur}
      || (RunningThreads(ss[n]) == {} && exists k: nat :: IdleSince(ss, es, k, n))
  {
    hide Next, Enabled, InOrder, ReadyKnown;
    if n > 0 {
      AlwaysInv(ss, es, n - 1);
      StepKeeps(ss[n - 1], es[n - 1]);
      if Runs(ss[0]) && !Runs(ss[n]) {
        if Runs(ss[n - 1]) {
          assert IdleSince(ss, es, n - 1, n);
        } else {
          assert ss[n - 1].cur !in RunningThreads(ss[n - 1]);
          var k: nat :| IdleSince(ss, es, k, n - 1);
          assert IdleSince(ss, es, k, n);
        }
      }
    }
    assert Runs(ss[n]) ==> ss[n].cur in RunningThreads(ss[n]);
  }

  lemma InvKnown(s: Sched)
    requires Inv(s)
    ensures ReadyKnown(s) && forall x :: x in s.ready ==> x in s.threads && x in Prios(s.threads)
    ensures Prios(s.threads).Keys == s.threads.Keys
    ensures s.ready != [] ==> s.ready[0] in s.threads
  {
    if s.ready != [] {
      assert s.ready[0] in s.ready;
    }
  }

  // ---------------------------------------------------------------- the scheduler itself

  class Scheduler {
    const readyList: SortedList
    var threads: map<nat, Thread>
    var currentThread: nat
    ghost var arrived: map<nat, nat>
    ghost var clock: nat

    ghost function S(): Sched
      reads this, readyList
    {
      Sched(threads, readyList.Contents(), currentThread, arrived, clock)
    }

    ghost predicate Valid()
      reads this, readyList, readyList.nodes
    {
      readyList.Valid() && Inv(S())
    }

    /** The first thread, running. */
    constructor (t: nat)
      ensures Valid() && Runs(S()) && currentThread == t && fresh(readyList)
    {
      readyList := new SortedList();
      threads, currentThread := map[t := Thread(Running, DEFAULT_PRIORITY)], t;
      arrived, clock := map[], 0;
    }

    method ReadyToRun(t: nat)
      requires Valid() && t in threads && threads[t].status != Ready
      modifies this, readyList, readyList.nodes
      ensures Valid() && S() == MadeReady(old(S()), t)
      ensures forall n :: n in readyList.nodes ==> n in old(readyList.nodes) || fresh(n)
    {
      hide Inv, Inserted, SortedList.Contents, SortedList.Valid, ReadyKnown, Prios;
      ghost var s := S();
      InvKnown(s);
      ReadyKeeps(s, t);
      readyList.Insert(t, Prios(threads));
      threads := threads[t := threads[t].(status := Ready)];
      arrived, clock := arrived[t := clock], clock + 1;
    }

    method FindNextToRun() returns (next: Option<nat>)
      requires readyList.Valid()
      modifies readyList
      ensures readyList.Valid() && threads == old(threads) && currentThread == old(currentThread)
      ensures next == if old(S()).ready == [] then None else Some(old(S()).ready[0])
      ensures S() == old(S()).(ready := if old(S()).ready == [] then [] else old(S()).ready[1..])
      ensures forall n :: n in readyList.nodes ==> n in old(readyList.nodes)
    {
      next := readyList.Remove();
    }

    method Run(next: nat)
      requires readyList.Valid() && next in threads
      modifies `threads, `currentThread
      ensures S() == WithStatus(old(S()), next, Running).(cur := next)
    {
      currentThread := next;
      threads := threads[next := threads[next].(status := Running)];
    }

    /** `Thread::Yield`. */
    method YieldProcessor()
      requires Valid() && Runs(S())
      modifies this, readyList, readyList.nodes
      ensures Valid() && S() == Next(old(S()), Yield) && Runs(S())
    {
      hide Inv, Inserted, SortedList.Contents, SortedList.Valid, ReadyKnown, MadeReady;
      ghost var s := S();
      InvKnown(s);
      YieldReady(s);
      StepKeeps(s, Yield);
      ReadyToRun(currentThread);
      InvKnown(S());
      var next := FindNextToRun();
      assert next.Some?;
      Run(next.value);
    }

    /** `Thread::Sleep`, up to the first dispatch. */
    method Sleep(st: Status) returns (idle: bool)
      requires Valid() && Runs(S()) && st in {Blocked, Zombie}
      modifies this, readyList
      ensures Valid() && S() == Next(old(S()), Doze(st)) && idle == !Runs(S())
    {
      hide Inv, SortedList.Contents, SortedList.Valid, ReadyKnown;
      ghost var s := S();
      InvKnown(s);
      StepKeeps(s, Doze(st));
      threads := threads[currentThread := threads[currentThread].(status := st)];
      var next := FindNextToRun();
      idle := next.None?;
      if !idle {
        Run(next.value);
      }
    }

    /** `Thread::Prioritize`, which is applied to the current thread. */
    method Prioritize(p: int)
      requires Valid() && Runs(S())
      modifies `threads
      ensures Valid() && S() == Next(old(S()), Nice(p))
      ensures
        var was, now := old(threads)[currentThread].priority, threads[currentThread].priority;
        && (0 <= was + p <= 40 ==> now == was + p)
        && (was + p < 0 ==> now == 0)
        && (was + p > 40 ==> now == 40)
      ensures forall t :: t in threads && t != currentThread ==> threads[t] == old(threads)[t]
    {
      ghost var s := S();
      assert Enabled(s, Nice(p));
      StepKeeps(s, Nice(p));
      hide Inv;
      var priority := threads[currentThread].priority + p;
      if priority < 0 {
        priority := 0;
      }
      if priority > MAX_PRIORITY {
        priority := MAX_PRIORITY;
      }
      threads := threads[currentThread := threads[currentThread].(priority := priority)];
    }
  }
}
