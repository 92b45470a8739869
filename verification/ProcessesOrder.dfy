// Waits return children in the order in which they exited.

module ProcessesOrder {
  import opened Options
  import opened Semaphores
  import opened Processes
  import opened ProcessesKeep
  import opened ProcessesRun

  /** The child of p that the step queues on its parent, if it is one. */
  ghost function Leaver(w: World, e: Event, p: Tid): seq<Tid> {
    if e.ExitLoop? && w.cur in w.procs && w.procs[w.cur].children == 0 && w.procs[w.cur].parent == Some(p)
    then [w.cur] else []
  }

  /** The children of p that have exited within the first n steps, in this order. */
  ghost function Leavers(ws: seq<World>, es: seq<Event>, n: nat, p: Tid): seq<Tid>
    requires n <= |es| <= |ws|
  {
    if n == 0 then [] else Leavers(ws, es, n - 1, p) + Leaver(ws[n - 1], es[n - 1], p)
  }

  /** The children that Waits of p have returned. */
  ghost function ReturnedTo(reports: seq<Report>, p: Tid): seq<Tid>
    decreases |reports|
  {
    if reports == [] then []
    else
      var n := |reports| - 1;
      ReturnedTo(reports[..n], p) + if reports[n].parent == p then [reports[n].child] else []
  }

  /** What p has in its hands. */
  function Held(p: Proc): seq<Tid> {
    if p.pc.Collects? then [p.pc.child] else []
  }

  /** Every child that has exited is, in the order of the exits, returned, in the hands of its
      parent, or on its list. */
  ghost predicate InOrder(w: World, p: Tid, left: seq<Tid>) {
    && (p in w.procs ==> ReturnedTo(w.reports, p) + Held(w.procs[p]) + w.procs[p].list == left)
    && ReturnedTo(w.reports, p) <= left
    && (p >= w.nextId ==> left == [])
  }

  lemma Returns(w: World, junk: int, p: Tid)
    requires Enabled(w, Dispose(junk)) && Safe(w, Dispose(junk))
    ensures ReturnedTo(Next(w, Dispose(junk)).reports, p) ==
      ReturnedTo(w.reports, p) + if p == w.cur then [w.procs[p].pc.child] else []
  {
    var after := Next(w, Dispose(junk)).reports;
    assert after[..|w.reports|] == w.reports;
  }

  lemma DisposeOrder(w: World, junk: int, p: Tid, left: seq<Tid>)
    requires Enabled(w, Dispose(junk)) && Safe(w, Dispose(junk)) && InOrder(w, p, left)
    ensures InOrder(Next(w, Dispose(junk)), p, left)
  {
    Returns(w, junk, p);
    DisposeHeld(w, junk, p);
    hide ReturnedTo, Next, Enabled, Safe, Held;
  }

  lemma DisposeHeld(w: World, junk: int, p: Tid)
    requires Enabled(w, Dispose(junk)) && Safe(w, Dispose(junk))
    ensures var w' := Next(w, Dispose(junk));
      && w'.nextId == w.nextId && w.cur in w'.procs && w.cur in w.procs && w.procs[w.cur].pc.Collects?
      && (p in w'.procs ==>
            && p in w.procs && w'.procs[p].list == w.procs[p].list
            && (p == w.cur ==> Held(w.procs[p]) == [w.procs[p].pc.child] && Held(w'.procs[p]) == [])
            && (p != w.cur ==> Held(w'.procs[p]) == Held(w.procs[p])))
  {
  }

  lemma UnqueueOrder(w: World, p: Tid, left: seq<Tid>)
    requires Enabled(w, Unqueue) && Safe(w, Unqueue) && InOrder(w, p, left)
    ensures InOrder(Next(w, Unqueue), p, left)
  {
    hide ReturnedTo;
    if p == w.cur {
      var list := w.procs[p].list;
      assert list == [list[0]] + list[1..];
    }
  }

  lemma ExitOrder(w: World, p: Tid, left: seq<Tid>)
    requires Inv(w) && Enabled(w, ExitLoop) && Safe(w, ExitLoop) && InOrder(w, p, left)
    ensures InOrder(Next(w, ExitLoop), p, left + Leaver(w, ExitLoop, p))
  {
    hide ReturnedTo, Families, Lists, Values, Turn, Reports, Deletions, Locals;
    var more := left + Leaver(w, ExitLoop, p);
    if Leaver(w, ExitLoop, p) == [] {
      assert more == left;
    } else {
      assert left <= more;
    }
  }

  lemma SwitchOrder(w: World, next: Tid, p: Tid, left: seq<Tid>)
    requires Enabled(w, Switch(next)) && InOrder(w, p, left)
    ensures InOrder(Switched(w, next), p, left)
  {
    hide ReturnedTo;
  }

  lemma ForkOrder(w: World, p: Tid, left: seq<Tid>)
    requires Inv(w) && Enabled(w, Fork) && InOrder(w, p, left)
    ensures InOrder(Next(w, Fork), p, left)
  {
    hide ReturnedTo, Families, Lists, Values, Turn, Reports, Deletions, Locals;
    if p == w.nextId {
      assert ReturnedTo(w.reports, p) + [] + [] == [];
    }
  }

  lemma StepOrder(w: World, e: Event, p: Tid, left: seq<Tid>)
    requires Inv(w) && Enabled(w, e) && Safe(w, e) && InOrder(w, p, left)
    ensures InOrder(Next(w, e), p, left + Leaver(w, e, p))
  {
    hide Inv, ReturnedTo, Attempt, Signal, Switched, Disposed, Left, Forked, Took;
    assert left + [] == left;
    match e {
      case Fork => ForkOrder(w, p, left);
      case CallWait(_) =>
      case CallExit(_) =>
      case PassP =>
      case Unqueue => UnqueueOrder(w, p, left);
      case Dispose(junk) => DisposeOrder(w, junk, p, left);
      case ExitLoop => ExitOrder(w, p, left);
      case Conclude =>
      case Block =>
      case Wake(_) =>
      case Switch(next) => SwitchOrder(w, next, p, left);
    }
  }

  lemma {:induction false} AlwaysInOrder(ws: seq<World>, es: seq<Event>, n: nat, p: Tid)
    requires Runs(ws, es) && n <= |es|
    ensures InOrder(ws[n], p, Leavers(ws, es, n, p))
  {
    hide Inv, Next, Safe, Enabled, InOrder, Leaver;
    if n == 0 {
      StartOrder(ws[0], p);
    } else {
      AlwaysInOrder(ws, es, n - 1, p);
      AlwaysInv(ws, es, n - 1);
      StepOrder(ws[n - 1], es[n - 1], p, Leavers(ws, es, n - 1, p));
    }
  }

  lemma StartOrder(w: World, p: Tid)
    requires Start(w)
    ensures InOrder(w, p, [])
  {
  }

  /** The Waits of a process return its children in the order in which they exited; while
      it is there, those that it has not returned yet are in its hands or on its list, in
      this order too, and none is lost. */
  lemma ReturnedInExitOrder(ws: seq<World>, es: seq<Event>, p: Tid)
    requires Runs(ws, es)
    ensures ReturnedTo(ws[|es|].reports, p) <= Leavers(ws, es, |es|, p)
    ensures p in ws[|es|].procs ==>
      ReturnedTo(ws[|es|].reports, p) + Held(ws[|es|].procs[p]) + ws[|es|].procs[p].list == Leavers(ws, es, |es|, p)
  {
    AlwaysInOrder(ws, es, |es|, p);
  }

  // ---------------------------------------------------------------- the processor

  /** The thread that is switched to runs, and goes on where it was. */
  lemma SwitchRuns(ws: seq<World>, es: seq<Event>, next: Tid)
    requires Runs(ws, es) && Enabled(ws[|es|], Switch(next)) && Safe(ws[|es|], Switch(next))
    ensures var w, w' := ws[|es|], Next(ws[|es|], Switch(next));
      && w'.cur == next && CurIs(w') && w'.procs[next].started
      && w'.procs[next].pc == w.procs[next].pc && w'.procs[next].list == w.procs[next].list
  {
  }

  /** A running thread can always take a step of its own. */
  lemma RunningCanStep(ws: seq<World>, es: seq<Event>)
    requires Runs(ws, es) && CurIs(ws[|es|])
    ensures exists e :: Enabled(ws[|es|], e) && Safe(ws[|es|], e) && !e.Switch? && !e.Wake?
  {
    hide Inv, Safe;
    var w := ws[|es|];
    AlwaysInv(ws, es, |es|);
    LocalAt(w, w.cur);
    var e :=
      match w.procs[w.cur].pc
      case User => Fork
      case Waits(_) => PassP
      case Unqueues(_) => Unqueue
      case Collects(_, _, _) => Dispose(0)
      case Exits(_) => ExitLoop
      case Posted => Conclude
      case Gone => Fork;
    NeverFails(ws, es, e);
  }
}
