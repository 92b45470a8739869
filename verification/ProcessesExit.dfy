// Fork, the ends of Exit, and switching, keep the invariant.

module ProcessesExit {
  import opened Sequences
  import opened Options
  import opened Semaphores
  import opened Processes
  import opened ProcessesKeep

  // ---------------------------------------------------------------- fork

  lemma ForkKids(w: World)
    requires CurIs(w) && Ids(w.procs, w.exited, w.nextId)
    ensures w.nextId !in w.procs && Forked(w).procs.Keys == w.procs.Keys + {w.nextId}
    ensures forall s, p :: IsKid(Forked(w).procs, s, p) <==> IsKid(w.procs, s, p) || (s == w.nextId && p == w.cur)
    ensures forall s :: !IsKid(w.procs, s, w.nextId)
    ensures forall p :: p in w.procs ==>
      Forked(w).procs[p].children == w.procs[p].children + if p == w.cur then 1 else 0
    ensures Forked(w).procs[w.nextId].children == 0
  {
  }

  lemma ForkCount(w: World, p: Tid)
    requires CurIs(w) && Ids(w.procs, w.exited, w.nextId) && p in Forked(w).procs
    requires p in w.procs ==> w.procs[p].children == |Kids(w.procs, p)|
    ensures Forked(w).procs[p].children == |Kids(Forked(w).procs, p)|
  {
    var m, m', n := w.procs, Forked(w).procs, w.nextId;
    ForkKids(w);
    hide Ids, Forked;
    if p == w.cur {
      KidsMore(m, m', p, {n});
      assert n !in Kids(m, p);
    } else {
      KidsMore(m, m', p, {});
      if p == n {
        assert Kids(m, n) == {};
      }
    }
  }

  lemma ForkFamilies(w: World)
    requires CurIs(w) && Families(w.procs) && Ids(w.procs, w.exited, w.nextId)
    ensures Families(Forked(w).procs)
  {
    ForkKids(w);
    hide IsKid, Ids, Forked, Kids;
    forall p | p in Forked(w).procs ensures Forked(w).procs[p].children == |Kids(Forked(w).procs, p)| {
      ForkCount(w, p);
    }
  }

  lemma KidsMore(m: map<Tid, Proc>, m': map<Tid, Proc>, p: Tid, more: set<Tid>)
    requires forall s :: IsKid(m', s, p) <==> IsKid(m, s, p) || s in more
    ensures Kids(m', p) == Kids(m, p) + more
  {
    forall s ensures s in Kids(m', p) <==> s in Kids(m, p) || s in more {
    }
  }

  lemma ForkQueued(w: World, p: Tid, c: Tid)
    requires CurIs(w) && w.procs[w.cur].pc.User? && Ids(w.procs, w.exited, w.nextId) && w.nextId !in w.procs
    ensures p in w.procs ==> (Queued(Forked(w).procs, c, p) <==> Queued(w.procs, c, p))
    ensures p in w.procs && Holds(w.procs, p) ==> Holds(Forked(w).procs, p)
    ensures !Queued(Forked(w).procs, c, w.nextId)
  {
  }

  lemma ForkLists(w: World)
    requires CurIs(w) && w.procs[w.cur].pc.User? && Lists(w.procs) && Ids(w.procs, w.exited, w.nextId)
    ensures Lists(Forked(w).procs)
  {
    var m, m', n := w.procs, Forked(w).procs, w.nextId;
    assert n !in m;
    hide Queued, Holds, Ids;
    forall p, c | p in m' ensures c in m'[p].list <==> Queued(m', c, p) {
      ForkQueued(w, p, c);
    }
    forall p | p in m' ensures Holds(m', p) {
      if p in m {
        ForkQueued(w, p, p);
        assert Holds(m, p);
      } else {
        NewHolds(m', n, w.cur);
      }
    }
  }

  lemma NewHolds(m: map<Tid, Proc>, n: Tid, p: Tid)
    requires n in m && m[n] == NewProc(Some(p))
    ensures Holds(m, n)
  {
  }

  lemma ForkLocals(w: World)
    requires CurIs(w) && w.procs[w.cur].pc.User? && Locals(w.procs) && Turn(w.procs, w.cur, w.doomed)
    ensures Locals(Forked(w).procs)
  {
    var me := w.procs[w.cur];
    assert SemOk(w.cur, me) && PhaseOk(me);
    PutLocals(w.procs, w.cur, me.(children := me.children + 1));
    PutLocals(w.procs[w.cur := me.(children := me.children + 1)], w.nextId, NewProc(Some(w.cur)));
  }

  lemma ForkValues(w: World)
    requires CurIs(w) && w.procs[w.cur].pc.User? && Ids(w.procs, w.exited, w.nextId) && Values(w.procs, w.exited)
    ensures Values(Forked(w).procs, w.exited)
  {
    assert w.nextId !in w.exited;
    hide Ids;
  }

  lemma ForkTurn(w: World)
    requires CurIs(w) && w.procs[w.cur].pc.User? && Ids(w.procs, w.exited, w.nextId)
    requires Turn(w.procs, w.cur, w.doomed)
    ensures Turn(Forked(w).procs, w.cur, w.doomed)
  {
    var m, m', cur, n := w.procs, Forked(w).procs, w.cur, w.nextId;
    forall c, p | c in m' && m'[c].parent == Some(p) && p in m' ensures m'[p].started {
      if c == n {
        assert p == cur;
      } else {
        assert m[c].parent == Some(p) && p < c;
      }
    }
    if w.doomed.Some? && cur != w.doomed.value {
      assert NewHere(m, cur);
      assert NewHere(m', cur);
    }
    hide Ids, NewHere;
  }

  lemma ForkIds(w: World)
    requires CurIs(w) && Ids(w.procs, w.exited, w.nextId)
    ensures Ids(Forked(w).procs, w.exited, w.nextId + 1)
  {
  }

  lemma ForkHistory(w: World)
    requires CurIs(w) && Ids(w.procs, w.exited, w.nextId)
    requires Reports(w.procs, w.exited, w.reports) && Deletions(w.procs, w.reports, w.freed, w.nextId)
    ensures Reports(Forked(w).procs, w.exited, w.reports)
    ensures Deletions(Forked(w).procs, w.reports, w.freed, w.nextId + 1)
  {
    assert !Reported(w.reports, w.nextId) && !WasFreed(w.freed, w.nextId);
    hide Reported, WasFreed;
  }

  lemma ForkKeeps(w: World)
    requires Inv(w) && Enabled(w, Fork)
    ensures Inv(Next(w, Fork))
  {
    hide Families, Lists, Locals, Values, Turn, Ids, Reports, Deletions;
    ForkFamilies(w);
    ForkLists(w);
    ForkLocals(w);
    ForkValues(w);
    ForkTurn(w);
    ForkIds(w);
    ForkHistory(w);
  }

  // ---------------------------------------------------------------- posting the exit

  /** The current thread is running, so it is not the doomed one. */
  lemma Undoomed(w: World)
    requires Inv(w) && CurIs(w)
    ensures w.doomed.Some? ==> w.procs[w.cur].parent.Some? && !w.procs[w.cur].released
  {
    hide Families, Lists, Values, Ids, Reports, Deletions, SemOk;
    assert PhaseOk(w.procs[w.cur]);
    if w.doomed.Some? {
      assert PhaseOk(w.procs[w.doomed.value]);
    }
  }

  /** p is the parent of t, which is about to post its exit. */
  ghost predicate Posts(m: map<Tid, Proc>, t: Tid, p: Tid) {
    && t in m && p in m && p != t && IsKid(m, t, p)
    && m[t].pc.Exits? && m[t].children == 0 && m[t].status == Running
  }

  ghost function AfterPost(m: map<Tid, Proc>, t: Tid, p: Tid): map<Tid, Proc>
    requires Posts(m, t, p)
  {
    m[p := Posting(m[p], t)][t := m[t].(released := false, exitVal := m[t].pc.value, pc := Posted)]
  }

  lemma PostReady(w: World)
    requires Inv(w) && Enabled(w, ExitLoop) && w.procs[w.cur].children == 0 && w.procs[w.cur].parent.Some?
    ensures var p := w.procs[w.cur].parent.value;
      && p in w.procs && p != w.cur && Posts(w.procs, w.cur, p)
      && Left(w, p).procs == AfterPost(w.procs, w.cur, p)
  {
    hide Lists, Values, Turn, Reports, Deletions, SemOk;
    assert PhaseOk(w.procs[w.cur]);
    assert IsKid(w.procs, w.cur, w.procs[w.cur].parent.value);
  }

  lemma PostFamilies(m: map<Tid, Proc>, t: Tid, p: Tid)
    requires Families(m) && Posts(m, t, p)
    ensures Families(AfterPost(m, t, p))
    ensures forall s, u :: IsKid(AfterPost(m, t, p), s, u) <==> IsKid(m, s, u)
  {
    FamiliesSame(m, AfterPost(m, t, p));
  }

  lemma PostQueued(m: map<Tid, Proc>, t: Tid, p: Tid, u: Tid, c: Tid)
    requires Posts(m, t, p) && u in m && Holds(m, u)
    ensures Queued(AfterPost(m, t, p), c, u) <==> Queued(m, c, u) || (c == t && u == p)
    ensures !Queued(m, t, p) && Holds(AfterPost(m, t, p), u)
  {
  }

  lemma PostLists(m: map<Tid, Proc>, t: Tid, p: Tid)
    requires Lists(m) && Posts(m, t, p)
    ensures Lists(AfterPost(m, t, p))
  {
    var m' := AfterPost(m, t, p);
    assert m'.Keys == m.Keys && m'[p].list == m[p].list + [t] && forall u :: u in m && u != p ==> m'[u].list == m[u].list;
    hide Queued, Holds, AfterPost;
    forall u, c | u in m' ensures c in m'[u].list <==> Queued(m', c, u) {
      assert Holds(m, u);
      PostQueued(m, t, p, u, c);
    }
    forall u | u in m' ensures Holds(m', u) {
      assert Holds(m, u);
      PostQueued(m, t, p, u, u);
    }
    assert Holds(m, p);
    PostQueued(m, t, p, p, t);
    assert Distinct(m[p].list) && t !in m[p].list;
    assert forall u :: u in m ==> Distinct(m'[u].list);
  }

  lemma PostLocals(m: map<Tid, Proc>, t: Tid, p: Tid)
    requires Locals(m) && Posts(m, t, p)
    ensures Locals(AfterPost(m, t, p))
  {
    assert SemOk(t, m[t]) && PhaseOk(m[t]) && SemOk(p, m[p]) && PhaseOk(m[p]);
    PutLocals(m, p, Posting(m[p], t));
    PutLocals(m[p := Posting(m[p], t)], t, m[t].(released := false, exitVal := m[t].pc.value, pc := Posted));
  }

  lemma PostValues(m: map<Tid, Proc>, exited: map<Tid, int>, t: Tid, p: Tid)
    requires Values(m, exited) && Posts(m, t, p)
    ensures Values(AfterPost(m, t, p), exited[t := m[t].pc.value])
  {
    assert t !in exited;
    assert forall u :: u in m && m[u].pc.Collects? ==> m[u].pc.child != t;
  }

  lemma PostTurn(m: map<Tid, Proc>, doomed: Option<Tid>, t: Tid, p: Tid)
    requires Turn(m, t, doomed) && Posts(m, t, p)
    ensures Turn(AfterPost(m, t, p), t, doomed)
  {
    var m' := AfterPost(m, t, p);
    forall u | u in m
      ensures u in m' && m'[u].parent == m[u].parent && m'[u].started == m[u].started
      ensures m'[u].released == m[u].released && m'[u].pc.Gone? == m[u].pc.Gone?
      ensures m'[u].status == Running ==> m[u].status == Running
    {
    }
    hide AfterPost;
  }

  lemma PostHistory(w: World, p: Tid)
    requires w.cur in w.procs && Posts(w.procs, w.cur, p) && Ids(w.procs, w.exited, w.nextId)
    requires Values(w.procs, w.exited) && Reports(w.procs, w.exited, w.reports)
    requires Deletions(w.procs, w.reports, w.freed, w.nextId)
    ensures var m', exited := AfterPost(w.procs, w.cur, p), w.exited[w.cur := w.procs[w.cur].pc.value];
      && Ids(m', exited, w.nextId) && Reports(m', exited, w.reports)
      && Deletions(m', w.reports, w.freed, w.nextId)
  {
    assert w.cur !in w.exited;
    hide Reported, WasFreed;
  }

  lemma PostKeeps(w: World)
    requires Inv(w) && Enabled(w, ExitLoop) && w.procs[w.cur].children == 0 && w.procs[w.cur].parent.Some?
    ensures Safe(w, ExitLoop) && Inv(Next(w, ExitLoop))
  {
    hide Families, Lists, Locals, Values, Turn, Ids, Reports, Deletions;
    PostReady(w);
    var t, p := w.cur, w.procs[w.cur].parent.value;
    PostFamilies(w.procs, t, p);
    PostLists(w.procs, t, p);
    PostLocals(w.procs, t, p);
    PostValues(w.procs, w.exited, t, p);
    PostTurn(w.procs, w.doomed, t, p);
    PostHistory(w, p);
  }

  // ---------------------------------------------------------------- the last sleep

  /** The thread goes to its last sleep: behind its post, or without a parent to post to. */
  ghost predicate Dies(m: map<Tid, Proc>, t: Tid) {
    && t in m && m[t].status == Running && m[t].children == 0
    && (m[t].pc.Posted? || (m[t].pc.Exits? && m[t].parent.None?))
  }

  ghost function Dead(p: Proc): Proc {
    p.(status := Zombie, pc := Gone)
  }

  lemma DiesLists(m: map<Tid, Proc>, t: Tid)
    requires Families(m) && Lists(m) && Dies(m, t)
    ensures Families(m[t := Dead(m[t])]) && Lists(m[t := Dead(m[t])])
  {
    hide Lists, Families;
    FamiliesSame(m, m[t := Dead(m[t])]);
    StandingLists(m, m[t := Dead(m[t])]);
  }

  lemma DiesRest(w: World)
    requires Inv(w) && Dies(w.procs, w.cur)
    ensures var m := w.procs[w.cur := Dead(w.procs[w.cur])];
      && Locals(m) && Values(m, w.exited) && Ids(m, w.exited, w.nextId)
      && Reports(m, w.exited, w.reports) && Deletions(m, w.reports, w.freed, w.nextId)
  {
    hide Families, Lists, Turn, Reported, WasFreed;
    assert SemOk(w.cur, w.procs[w.cur]) && PhaseOk(w.procs[w.cur]);
    assert SemOk(w.cur, Dead(w.procs[w.cur])) && PhaseOk(Dead(w.procs[w.cur]));
    hide SemOk, PhaseOk;
  }

  lemma DiesTurn(m: map<Tid, Proc>, t: Tid, doomed: Option<Tid>)
    requires Turn(m, t, doomed) && Dies(m, t)
    requires doomed.Some? ==> m[t].parent.Some? && !m[t].released
    requires doomed.Some? ==> doomed.value != t
    ensures m[t].parent.Some? && !m[t].released ==> Turn(m[t := Dead(m[t])], t, doomed)
    ensures m[t].parent.None? || m[t].released ==> Turn(m[t := Dead(m[t])], t, Some(t))
  {
  }

  lemma DeathKeeps(w: World, e: Event)
    requires Inv(w) && Enabled(w, e)
    requires e.Conclude? || (e.ExitLoop? && w.procs[w.cur].children == 0 && w.procs[w.cur].parent.None?)
    ensures Safe(w, e) && Inv(Next(w, e))
  {
    Undoomed(w);
    NotDoomed(w);
    assert PhaseOk(w.procs[w.cur]);
    assert Dies(w.procs, w.cur);
    hide Families, Lists, Locals, Values, Turn, Ids, Reports, Deletions;
    DiesLists(w.procs, w.cur);
    DiesRest(w);
    DiesTurn(w.procs, w.cur, w.doomed);
  }

  lemma NotDoomed(w: World)
    requires Inv(w) && CurIs(w)
    ensures w.doomed != Some(w.cur)
  {
    hide Families, Lists, Values, Ids, Reports, Deletions, SemOk;
    assert PhaseOk(w.procs[w.cur]);
  }

  lemma ExitWaits(w: World)
    requires Inv(w) && Enabled(w, ExitLoop) && w.procs[w.cur].children > 0
    ensures Inv(With(w, w.cur, w.procs[w.cur].(pc := Waits(Exiting(w.procs[w.cur].pc.value)))))
  {
    hide Inv;
    var me := w.procs[w.cur];
    LocalAt(w, w.cur);
    MovesKeeps(w, w.cur, me.(pc := Waits(Exiting(me.pc.value))));
  }

  lemma ExitLoopKeeps(w: World)
    requires Inv(w) && Enabled(w, ExitLoop)
    ensures Safe(w, ExitLoop) && Inv(Next(w, ExitLoop))
  {
    hide Inv, Left, Finish;
    var me := w.procs[w.cur];
    if me.children > 0 {
      ExitWaits(w);
    } else if me.parent.None? {
      DeathKeeps(w, ExitLoop);
    } else {
      PostKeeps(w);
    }
  }

  // ---------------------------------------------------------------- switching

  lemma SwitchSafe(w: World, next: Tid)
    requires Inv(w) && Enabled(w, Switch(next))
    ensures Safe(w, Switch(next))
    ensures w.doomed.Some? ==> w.doomed.value != next
  {
    hide Families, Lists, Values, Ids, Reports, Deletions, SemOk;
    assert PhaseOk(w.procs[next]);
  }

  lemma PreemptKeeps(w: World)
    requires Inv(w)
    ensures w.cur in w.procs && Inv(Preempted(w))
    ensures forall s :: s in Preempted(w).procs ==> Preempted(w).procs[s].status != Running
  {
    hide Families, Lists, Values, Ids, Reports, Deletions;
    var me := w.procs[w.cur];
    assert SemOk(w.cur, me) && PhaseOk(me);
    assert forall s :: s in Preempted(w).procs ==> Preempted(w).procs[s].status != Running;
    hide Turn, Locals;
    if me.status == Running {
      MovesKeeps(w, w.cur, me.(status := Ready));
    }
  }

  /** Giving the processor to a ready thread, while nobody runs. */
  lemma StartedLists(m: map<Tid, Proc>, t: Tid)
    requires t in m && Families(m) && Lists(m)
    ensures var m' := m[t := m[t].(status := Running, started := true)]; Families(m') && Lists(m')
  {
    hide Lists, Families;
    var m' := m[t := m[t].(status := Running, started := true)];
    FamiliesSame(m, m');
    StandingLists(m, m');
  }

  lemma StartedRest(w: World, t: Tid)
    requires Inv(w) && t in w.procs && w.procs[t].status == Ready
    ensures var m := w.procs[t := w.procs[t].(status := Running, started := true)];
      && Locals(m) && Values(m, w.exited) && Ids(m, w.exited, w.nextId)
      && Reports(m, w.exited, w.reports) && Deletions(m, w.reports, w.freed, w.nextId)
  {
    hide Families, Lists, Turn, Reported, WasFreed;
    var q := w.procs[t].(status := Running, started := true);
    assert SemOk(t, w.procs[t]) && PhaseOk(w.procs[t]);
    assert SemOk(t, q) && PhaseOk(q);
    hide SemOk, PhaseOk;
  }

  lemma StartedTurn(w: World, t: Tid)
    requires Inv(w) && t in w.procs && w.procs[t].status == Ready
    requires forall s :: s in w.procs ==> w.procs[s].status != Running
    requires w.doomed.None? || !w.procs[t].started
    ensures Turn(w.procs[t := w.procs[t].(status := Running, started := true)], t, w.doomed)
  {
    hide Families, Lists, Values, Ids, Reports, Deletions, SemOk;
    assert PhaseOk(w.procs[t]);
  }

  /** Deleting the doomed thread. */
  lemma DeleteFamilies(m: map<Tid, Proc>, d: Tid)
    requires d in m && Families(m) && Lists(m) && PhaseOk(m[d]) && m[d].pc.Gone? && (m[d].released || m[d].parent.None?)
    ensures Families(m - {d}) && Lists(m - {d})
  {
    hide Lists, Families;
    FamiliesSame(m, m - {d});
    StandingLists(m, m - {d});
  }

  lemma DeleteRest(w: World, d: Tid)
    requires Inv(w) && w.doomed == Some(d)
    ensures var m := w.procs - {d};
      && d in w.procs
      && Locals(m) && Values(m, w.exited) && Ids(m, w.exited, w.nextId)
      && Reports(m, w.exited, w.reports)
  {
    hide Families, Lists, Reported, SemOk, PhaseOk;
  }

  lemma DeleteDeletions(w: World, d: Tid)
    requires Inv(w) && w.doomed == Some(d)
    ensures Deletions(w.procs - {d}, w.reports, w.freed + [ByScheduler(d)], w.nextId)
  {
    hide Families, Lists, Values, SemOk, PhaseOk;
    FreedMore(w.freed, ByScheduler(d));
    assert !WasFreed(w.freed, d) && (d == ROOT || Reported(w.reports, d));
    forall i | 0 <= i < |w.freed| ensures w.freed[i].who != d {
    }
    hide Reported, WasFreed, Locals;
  }

  /** w without its doomed thread; the current one may be that. */
  ghost function Buried(w: World): World
    requires w.doomed.Some?
  {
    w.(procs := w.procs - {w.doomed.value}, doomed := None, freed := w.freed + [ByScheduler(w.doomed.value)])
  }

  /** The invariant, but for the turn. */
  ghost predicate Rest(w: World) {
    && Families(w.procs) && Lists(w.procs) && Locals(w.procs) && Values(w.procs, w.exited)
    && Ids(w.procs, w.exited, w.nextId) && Reports(w.procs, w.exited, w.reports)
    && Deletions(w.procs, w.reports, w.freed, w.nextId)
  }

  lemma BuriedKeeps(w: World)
    requires Inv(w) && w.doomed.Some?
    ensures w.doomed.value in w.procs && Rest(Buried(w))
  {
    var d := w.doomed.value;
    assert PhaseOk(w.procs[d]);
    DeleteRest(w, d);
    hide Families, Lists, Locals, Values, Ids, Reports, Deletions;
    DeleteFamilies(w.procs, d);
    DeleteDeletions(w, d);
  }

  lemma StartKeeps(w: World, t: Tid)
    requires Inv(w) && t in w.procs && w.procs[t].status == Ready
    requires forall s :: s in w.procs ==> w.procs[s].status != Running
    requires w.doomed.None? || !w.procs[t].started
    ensures Inv(Dispatch(w, t))
  {
    hide Families, Lists, Locals, Values, Turn, Ids, Reports, Deletions;
    StartedTurn(w, t);
    StartedLists(w.procs, t);
    StartedRest(w, t);
  }

  lemma DispatchKeeps(w: World, t: Tid)
    requires Inv(w) && t in w.procs && w.procs[t].status == Ready
    requires forall s :: s in w.procs ==> w.procs[s].status != Running
    ensures Inv(Dispatch(w, t))
  {
    hide Inv;
    if w.procs[t].started && w.doomed.Some? {
      BuriedInv(w, t);
      SameDispatch(w, t);
      StartKeeps(Buried(w).(cur := t), t);
    } else {
      StartKeeps(w, t);
    }
  }

  lemma SameDispatch(w: World, t: Tid)
    requires t in w.procs && w.procs[t].started && w.doomed.Some? && w.doomed.value != t
    ensures Dispatch(w, t) == Dispatch(Buried(w).(cur := t), t)
  {
    var q := w.procs[t].(status := Running, started := true);
    assert w.procs[t := q] - {w.doomed.value} == (w.procs - {w.doomed.value})[t := q];
  }

  /** The state with the doomed thread gone and t, which has run before, as the current
      one. */
  lemma BuriedInv(w: World, t: Tid)
    requires Inv(w) && t in w.procs && w.procs[t].status == Ready && w.procs[t].started && w.doomed.Some?
    requires forall s :: s in w.procs ==> w.procs[s].status != Running
    ensures w.doomed.value in w.procs && t != w.doomed.value && Inv(Buried(w).(cur := t))
  {
    NotZombie(w, t);
    hide Families, Lists, Locals, Values, Turn, Ids, Reports, Deletions;
    BuriedKeeps(w);
    BuriedTurn(w, t);
  }

  lemma NotZombie(w: World, t: Tid)
    requires Inv(w) && t in w.procs && w.procs[t].status == Ready && w.doomed.Some?
    ensures t != w.doomed.value
  {
    hide Families, Lists, Values, Ids, Reports, Deletions, SemOk;
    assert PhaseOk(w.procs[t]);
  }

  lemma BuriedTurn(w: World, t: Tid)
    requires Turn(w.procs, w.cur, w.doomed) && w.doomed.Some? && t in w.procs && t != w.doomed.value && w.procs[t].started
    requires forall s :: s in w.procs ==> w.procs[s].status != Running
    ensures Turn(w.procs - {w.doomed.value}, t, None)
  {
  }

  lemma SwitchKeeps(w: World, next: Tid)
    requires Inv(w) && Enabled(w, Switch(next))
    ensures Safe(w, Switch(next)) && Inv(Next(w, Switch(next)))
  {
    hide Inv, Dispatch;
    SwitchSafe(w, next);
    PreemptKeeps(w);
    assert next in Preempted(w).procs && Preempted(w).procs[next].status == Ready;
    hide Preempted;
    DispatchKeeps(Preempted(w), next);
  }

  // ---------------------------------------------------------------- every step

  /** Every step that can come next is safe, and keeps the invariant. */
  lemma StepKeeps(w: World, e: Event)
    requires Inv(w) && Enabled(w, e)
    ensures Safe(w, e) && Inv(Next(w, e))
  {
    hide Inv, Next, Enabled;
    match e {
      case Fork => ForkKeeps(w);
      case Unqueue => UnqueueKeeps(w);
      case Dispose(junk) => DisposeKeeps(w, junk);
      case ExitLoop => ExitLoopKeeps(w);
      case Conclude => DeathKeeps(w, e);
      case Switch(next) => SwitchKeeps(w, next);
      case _ => QuietKeeps(w, e);
    }
  }
}
