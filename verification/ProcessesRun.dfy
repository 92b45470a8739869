// What holds in every state of every run of Fork, Exit and Wait.

module ProcessesRun {
  import opened Options
  import opened Semaphores
  import opened Processes
  import opened ProcessesKeep
  import opened ProcessesExit

  /** The first thread, running. */
  ghost predicate Start(w: World) {
    w == World(map[ROOT := NewProc(None).(status := Running, started := true)], ROOT, None, ROOT + 1, map[], [], [])
  }

  ghost predicate Runs(ws: seq<World>, es: seq<Event>) {
    && |ws| == |es| + 1 && Start(ws[0])
    && (forall i :: 0 <= i < |es| ==> Enabled(ws[i], es[i]) && (Safe(ws[i], es[i]) ==> ws[i + 1] == Next(ws[i], es[i])))
  }

  lemma StartInv(w: World)
    requires Start(w)
    ensures Inv(w)
  {
    assert forall p :: Kids(w.procs, p) == {};
  }

  lemma {:induction false} AlwaysInv(ws: seq<World>, es: seq<Event>, n: nat)
    requires Runs(ws, es) && n <= |es|
    ensures Inv(ws[n])
    ensures n < |es| ==> Safe(ws[n], es[n]) && ws[n + 1] == Next(ws[n], es[n])
  {
    hide Inv, Next, Safe, Enabled;
    if n == 0 {
      StartInv(ws[0]);
    } else {
      AlwaysInv(ws, es, n - 1);
      StepKeeps(ws[n - 1], es[n - 1]);
    }
    if n < |es| {
      StepKeeps(ws[n], es[n]);
    }
  }

  /** No step of any run touches a deleted object, fails an assertion (the child list
      behind P is never empty, the child count never negative), or overwrites a thread
      that is still to be destroyed. */
  lemma NeverFails(ws: seq<World>, es: seq<Event>, e: Event)
    requires Runs(ws, es) && Enabled(ws[|es|], e)
    ensures Safe(ws[|es|], e)
  {
    hide Inv, Next, Safe, Enabled;
    AlwaysInv(ws, es, |es|);
    StepKeeps(ws[|es|], e);
  }

  /** The parent of a child that no Wait has finished with is alive, and has not exited
      itself. */
  lemma ParentAlive(ws: seq<World>, es: seq<Event>, t: Tid, p: Tid)
    requires Runs(ws, es) && IsKid(ws[|es|].procs, t, p)
    ensures p in ws[|es|].procs && !Over(ws[|es|].procs[p].pc) && ws[|es|].procs[p].children > 0
  {
    AlwaysInv(ws, es, |es|);
    var w := ws[|es|];
    assert t in Kids(w.procs, p);
    hide Families, Lists, Values, Turn, Ids, Reports, Deletions;
    assert PhaseOk(w.procs[p]);
  }

  /** No wakeup is lost: a thread asleep in Wait has children, and none of them has
      exited. */
  lemma SleepsForGoodReason(ws: seq<World>, es: seq<Event>, p: Tid)
    requires Runs(ws, es) && p in ws[|es|].procs && Asleep(ws[|es|].procs[p])
    ensures ws[|es|].procs[p].children > 0
    ensures forall t :: IsKid(ws[|es|].procs, t, p) ==> !Over(ws[|es|].procs[t].pc)
  {
    hide Inv;
    AlwaysInv(ws, es, |es|);
    var w := ws[|es|];
    LocalAt(w, p);
    forall t | IsKid(w.procs, t, p) ensures !Over(w.procs[t].pc) {
      ListedAt(w, p, t);
    }
  }

  lemma ListedAt(w: World, p: Tid, t: Tid)
    requires Inv(w) && p in w.procs
    ensures t in w.procs[p].list <==> Queued(w.procs, t, p)
  {
    hide Families, Values, Turn, Ids, Reports, Deletions, Locals, Queued, Holds;
  }

  /** A zombie is waited for by a parent that is alive and holds it, or it is the thread
      that the scheduler is about to delete. */
  lemma NoLeak(ws: seq<World>, es: seq<Event>, t: Tid)
    requires Runs(ws, es) && t in ws[|es|].procs && ws[|es|].procs[t].status == Zombie
    ensures var w := ws[|es|];
      || w.doomed == Some(t)
      || (&& w.procs[t].parent.Some? && w.procs[t].parent.value in w.procs
          && var q := w.procs[w.procs[t].parent.value];
             t in q.list || (q.pc.Collects? && q.pc.child == t))
  {
    AlwaysInv(ws, es, |es|);
    var w := ws[|es|];
    assert PhaseOk(w.procs[t]);
    hide Values, Ids, Reports, Deletions, Locals, Lists;
    if w.doomed != Some(t) {
      var p := w.procs[t].parent.value;
      assert IsKid(w.procs, t, p);
      ListedAt(w, p, t);
    }
  }

  // ---------------------------------------------------------------- what Wait returns

  /** The exit value that a process is on its way out with. */
  function Carried(pc: Pc): Option<int> {
    match pc
    case Exits(v) => Some(v)
    case Waits(Exiting(v)) => Some(v)
    case Unqueues(Exiting(v)) => Some(v)
    case Collects(Exiting(v), _, _) => Some(v)
    case _ => None
  }

  lemma CarriedSwitched(w: World, next: Tid, t: Tid)
    requires w.cur in w.procs && next in w.procs && t in Switched(w, next).procs
    ensures t in w.procs && Switched(w, next).procs[t].pc == w.procs[t].pc
  {
  }

  lemma CarriedDisposed(w: World, junk: int, t: Tid)
    requires Enabled(w, Dispose(junk)) && Safe(w, Dispose(junk)) && t in Disposed(w, junk).procs
    ensures t in w.procs && Carried(Disposed(w, junk).procs[t].pc) == Carried(w.procs[t].pc)
  {
  }

  lemma CarriedFrom(w: World, e: Event, t: Tid)
    requires Enabled(w, e) && Safe(w, e) && t in Next(w, e).procs && Carried(Next(w, e).procs[t].pc).Some?
    ensures var v := Carried(Next(w, e).procs[t].pc);
      (t in w.procs && Carried(w.procs[t].pc) == v) || (t == w.cur && e == CallExit(v.value))
  {
    hide Attempt, Signal, Switched, Disposed;
    match e {
      case Fork =>
      case CallWait(_) =>
      case CallExit(_) =>
      case PassP =>
      case Unqueue =>
      case Dispose(junk) => CarriedDisposed(w, junk, t);
      case ExitLoop =>
      case Conclude =>
      case Block =>
      case Wake(_) =>
      case Switch(next) => CarriedSwitched(w, next, t);
    }
  }

  lemma ExitedFrom(w: World, e: Event, t: Tid)
    requires Enabled(w, e) && Safe(w, e) && t in Next(w, e).exited
    ensures (t in w.exited && w.exited[t] == Next(w, e).exited[t])
         || (t in w.procs && Carried(w.procs[t].pc) == Some(Next(w, e).exited[t]))
  {
  }

  /** t has called Exit with v within the first n steps. */
  ghost predicate CalledExit(ws: seq<World>, es: seq<Event>, n: nat, t: Tid, v: int)
    requires n <= |es| < |ws|
  {
    exists i :: 0 <= i < n && es[i] == CallExit(v) && ws[i].cur == t
  }

  lemma {:induction false} ValuesWerePassed(ws: seq<World>, es: seq<Event>, n: nat)
    requires Runs(ws, es) && n <= |es|
    ensures forall t :: t in ws[n].procs && Carried(ws[n].procs[t].pc).Some? ==>
      CalledExit(ws, es, n, t, Carried(ws[n].procs[t].pc).value)
    ensures forall t :: t in ws[n].exited ==> CalledExit(ws, es, n, t, ws[n].exited[t])
  {
    hide Inv, Next, Safe, Enabled, Carried;
    if n == 0 {
      hide CalledExit;
      StartCarries(ws[0]);
    } else {
      ValuesWerePassed(ws, es, n - 1);
      AlwaysInv(ws, es, n - 1);
      var w, e := ws[n - 1], es[n - 1];
      forall t | t in ws[n].procs && Carried(ws[n].procs[t].pc).Some?
        ensures CalledExit(ws, es, n, t, Carried(ws[n].procs[t].pc).value)
      {
        CarriedFrom(w, e, t);
      }
      forall t | t in ws[n].exited ensures CalledExit(ws, es, n, t, ws[n].exited[t]) {
        ExitedFrom(w, e, t);
      }
    }
  }

  lemma StartCarries(w: World)
    requires Start(w)
    ensures forall t :: t in w.procs ==> Carried(w.procs[t].pc).None?
    ensures w.exited == map[]
  {
  }

  // ---------------------------------------------------------------- which call a report ends

  /** In step m p calls Wait, and will sleep or take a child: with a place for the exit value
      (`wants`), without one, or on its way through Exit. */
  ghost predicate CallsWait(ws: seq<World>, es: seq<Event>, m: nat, p: Tid, wants: bool) {
    && m < |es| < |ws| && ws[m].cur == p && p in ws[m].procs && ws[m].procs[p].children > 0
    && (es[m] == CallWait(wants) || (es[m] == ExitLoop && !wants))
  }

  /** The last call of Wait that p has made before step n was in step m. */
  ghost predicate LastCall(ws: seq<World>, es: seq<Event>, n: nat, m: nat, p: Tid, wants: bool) {
    && m < n <= |es| && CallsWait(ws, es, m, p, wants)
    && (forall k, w :: m < k < n ==> !CallsWait(ws, es, k, p, w))
  }

  function InWait(pc: Pc): Option<Caller> {
    match pc
    case Waits(c) => Some(c)
    case Unqueues(c) => Some(c)
    case Collects(c, _, _) => Some(c)
    case _ => None
  }

  /** What the caller in the process's state says of the call. */
  predicate Matches(c: Caller, wants: bool) {
    match c
    case Program(w) => w == wants
    case Exiting(_) => !wants
  }

  lemma InWaitDisposed(w: World, junk: int, t: Tid)
    requires Enabled(w, Dispose(junk)) && Safe(w, Dispose(junk)) && t in Disposed(w, junk).procs
    ensures t in w.procs && (InWait(Disposed(w, junk).procs[t].pc).Some? ==> Disposed(w, junk).procs[t].pc == w.procs[t].pc)
  {
  }

  /** A process that is in Wait behind a step was in it before, or has just called it. */
  lemma InWaitFrom(w: World, e: Event, t: Tid)
    requires Enabled(w, e) && Safe(w, e) && t in Next(w, e).procs && InWait(Next(w, e).procs[t].pc).Some?
    ensures var c := InWait(Next(w, e).procs[t].pc);
      || (t in w.procs && InWait(w.procs[t].pc) == c && !(t == w.cur && (e.CallWait? || e.ExitLoop?)))
      || (&& t == w.cur && t in w.procs && w.procs[t].children > 0
          && (e == CallWait(true) ==> Matches(c.value, true))
          && (e == CallWait(false) || e == ExitLoop ==> Matches(c.value, false))
          && (e.CallWait? || e == ExitLoop))
  {
    hide Attempt, Signal, Switched, Disposed;
    match e {
      case Fork =>
      case CallWait(_) =>
      case CallExit(_) =>
      case PassP =>
      case Unqueue =>
      case Dispose(junk) => InWaitDisposed(w, junk, t);
      case ExitLoop =>
      case Conclude =>
      case Block =>
      case Wake(_) =>
      case Switch(next) => CarriedSwitched(w, next, t);
    }
  }

  /** A process in Wait is in the call that it made last. */
  lemma {:induction false} InLastCall(ws: seq<World>, es: seq<Event>, n: nat, t: Tid) returns (m: nat, wants: bool)
    requires Runs(ws, es) && n <= |es| && t in ws[n].procs && InWait(ws[n].procs[t].pc).Some?
    ensures LastCall(ws, es, n, m, t, wants) && Matches(InWait(ws[n].procs[t].pc).value, wants)
  {
    hide Inv, Next, Safe, Enabled, InWait, Matches;
    if n == 0 {
      StartWaits(ws[0]);
      assert false;
    }
    AlwaysInv(ws, es, n - 1);
    var w, e := ws[n - 1], es[n - 1];
    InWaitFrom(w, e, t);
    if t == w.cur && (e.CallWait? || e.ExitLoop?) {
      m, wants := n - 1, e.CallWait? && e.wants;
    } else {
      m, wants := InLastCall(ws, es, n - 1, t);
    }
  }

  lemma StartWaits(w: World)
    requires Start(w)
    ensures forall t :: t in w.procs ==> InWait(w.procs[t].pc).None?
  {
  }

  /** The reports only grow, by the end of a Wait. */
  lemma ReportsGrow(w: World, e: Event)
    requires Enabled(w, e) && Safe(w, e)
    ensures if e.Dispose? then |Next(w, e).reports| == |w.reports| + 1 && Next(w, e).reports[..|w.reports|] == w.reports
      else Next(w, e).reports == w.reports
  {
  }

  lemma {:induction false} WhenReported(ws: seq<World>, es: seq<Event>, k: nat, i: nat) returns (n: nat)
    requires Runs(ws, es) && k <= |es| && i < |ws[k].reports|
    ensures n < k && es[n].Dispose? && |ws[n].reports| == i
    ensures ws[n + 1].reports == ws[n].reports + [ws[k].reports[i]]
  {
    hide Inv, Next, Safe, Enabled;
    AlwaysInv(ws, es, k - 1);
    ReportsGrow(ws[k - 1], es[k - 1]);
    if i < |ws[k - 1].reports| {
      n := WhenReported(ws, es, k - 1, i);
      assert ws[k].reports[i] == ws[k].reports[..|ws[k - 1].reports|][i];
    } else {
      n := k - 1;
    }
  }

  /** The report that the end of a Wait makes. */
  lemma ReportOf(w: World, junk: int, wants: bool)
    requires Inv(w) && Enabled(w, Dispose(junk)) && Safe(w, Dispose(junk))
    requires Matches(w.procs[w.cur].pc.caller, wants)
    ensures var child := w.procs[w.cur].pc.child;
      && child in w.exited
      && Next(w, Dispose(junk)).reports ==
         w.reports + [Report(w.cur, child, if wants then Some(w.exited[child]) else None)]
  {
    hide Families, Lists, Turn, Ids, Reports, Deletions, Locals;
  }

  /** Two Waits never return the same child. Each report ends the last call of Wait of its
      parent: one with a place for the exit value gets what the child passed to Exit, and
      any other call gets none. */
  lemma ReportedOnceWithOwnValue(ws: seq<World>, es: seq<Event>, i: nat) returns (n: nat, m: nat, wants: bool)
    requires Runs(ws, es) && i < |ws[|es|].reports|
    ensures var r := ws[|es|].reports[i];
      && (forall j :: 0 <= j < |ws[|es|].reports| && j != i ==> ws[|es|].reports[j].child != r.child)
      && n < |es| && es[n].Dispose? && ws[n + 1].reports == ws[n].reports + [r] && |ws[n].reports| == i
      && ws[n].cur == r.parent && LastCall(ws, es, n, m, r.parent, wants)
      && (if wants then r.value.Some? && CalledExit(ws, es, n, r.child, r.value.value) else r.value.None?)
  {
    hide Inv, Next, Safe, Enabled, CalledExit, LastCall, Matches;
    NoChildTwice(ws, es, i);
    n := WhenReported(ws, es, |es|, i);
    AlwaysInv(ws, es, n);
    var w := ws[n];
    CollectsNow(w, es[n]);
    m, wants := InLastCall(ws, es, n, w.cur);
    ReportOf(w, es[n].junk, wants);
    ValuesWerePassed(ws, es, n);
    var r := ws[|es|].reports[i];
    assert ws[n + 1].reports[|w.reports|] == r;
  }

  lemma CollectsNow(w: World, e: Event)
    requires Enabled(w, e) && e.Dispose?
    ensures w.cur in w.procs && w.procs[w.cur].pc.Collects?
    ensures InWait(w.procs[w.cur].pc) == Some(w.procs[w.cur].pc.caller)
  {
  }

  lemma NoChildTwice(ws: seq<World>, es: seq<Event>, i: nat)
    requires Runs(ws, es) && i < |ws[|es|].reports|
    ensures forall j :: 0 <= j < |ws[|es|].reports| && j != i ==>
      ws[|es|].reports[j].child != ws[|es|].reports[i].child
  {
    AlwaysInv(ws, es, |es|);
    hide Families, Lists, Values, Turn, Ids, Deletions, Locals;
    var reports := ws[|es|].reports;
    forall j | 0 <= j < |reports| && j != i ensures reports[j].child != reports[i].child {
      assert if i < j then reports[i].child != reports[j].child else reports[j].child != reports[i].child;
    }
  }

  /** A process that a Wait has returned has been deleted exactly once, by its parent or
      by the scheduler; or it is still there, told to finish by itself, and then no
      parent will delete it. A process is never deleted before that. */
  lemma OneDisposal(ws: seq<World>, es: seq<Event>, c: Tid)
    requires Runs(ws, es) && ROOT < c < ws[|es|].nextId
    ensures var w := ws[|es|];
      && (Reported(w.reports, c) <==> (c in w.procs ==> w.procs[c].released))
      && (c in w.procs <==> !WasFreed(w.freed, c))
      && (forall i, j :: 0 <= i < j < |w.freed| ==> w.freed[i].who != w.freed[j].who)
      && (c in w.procs && w.procs[c].released ==>
            forall p :: p in w.procs ==> c !in w.procs[p].list && !(w.procs[p].pc.Collects? && w.procs[p].pc.child == c))
  {
    AlwaysInv(ws, es, |es|);
    var w := ws[|es|];
    hide Families, Lists, Values, Turn, Locals;
    if c in w.procs && w.procs[c].released {
      forall p | p in w.procs ensures c !in w.procs[p].list && !(w.procs[p].pc.Collects? && w.procs[p].pc.child == c) {
        ListedAt(w, p, c);
        HoldsAt(w, p);
      }
    }
    hide Ids;
    if WasFreed(w.freed, c) {
      assert Reported(w.reports, c);
    }
  }

  lemma HoldsAt(w: World, p: Tid)
    requires Inv(w) && p in w.procs
    ensures Holds(w.procs, p)
  {
    hide Families, Values, Turn, Ids, Reports, Deletions, Locals, Queued, Holds;
  }
}
