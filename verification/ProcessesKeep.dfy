// Every step of Fork, Exit and Wait is safe and keeps the invariant.

module ProcessesKeep {
  import opened Sequences
  import opened Options
  import opened Semaphores
  import opened Processes

  // ---------------------------------------------------------------- families

  /** The same children for the same parents; whoever is missing has been reaped and has
      no children left. */
  ghost predicate SameFamilies(m: map<Tid, Proc>, m': map<Tid, Proc>) {
    && m'.Keys <= m.Keys
    && (forall t :: t in m' ==> m'[t].parent == m[t].parent && m'[t].released == m[t].released && m'[t].children == m[t].children)
    && (forall t :: t in m && t !in m' ==> (m[t].released || m[t].parent.None?) && m[t].children == 0)
  }

  lemma FamiliesSame(m: map<Tid, Proc>, m': map<Tid, Proc>)
    requires Families(m) && SameFamilies(m, m')
    ensures Families(m')
    ensures forall t, p :: IsKid(m', t, p) <==> IsKid(m, t, p)
  {
    forall t, p ensures IsKid(m', t, p) <==> IsKid(m, t, p) {
    }
    forall p | p in m' ensures Kids(m', p) == Kids(m, p) {
    }
    forall t, p | IsKid(m', t, p) ensures p in m' {
      assert t in Kids(m, p);
    }
  }

  // ---------------------------------------------------------------- child lists

  predicate SameHold(pc: Pc, pc': Pc) {
    pc.Collects? == pc'.Collects? && (pc.Collects? ==> pc'.child == pc.child)
  }

  /** Nobody's list changes, nor who belongs on it. */
  ghost predicate SameStanding(m: map<Tid, Proc>, m': map<Tid, Proc>) {
    && m'.Keys <= m.Keys
    && (forall s :: s in m' ==>
          && m'[s].parent == m[s].parent && m'[s].released == m[s].released && m'[s].list == m[s].list
          && SameHold(m[s].pc, m'[s].pc) && (Over(m'[s].pc) == Over(m[s].pc) || m[s].parent.None?))
    && (forall s :: s in m && s !in m' ==> m[s].released || m[s].parent.None?)
  }

  lemma StandingQueued(m: map<Tid, Proc>, m': map<Tid, Proc>, p: Tid, c: Tid)
    requires SameStanding(m, m') && p in m'
    ensures p in m && (Queued(m', c, p) <==> Queued(m, c, p)) && (Holds(m, p) ==> Holds(m', p))
  {
  }

  lemma StandingLists(m: map<Tid, Proc>, m': map<Tid, Proc>)
    requires Lists(m) && SameStanding(m, m')
    ensures Lists(m')
  {
    hide Queued, Holds;
    forall p, c | p in m' ensures c in m'[p].list <==> Queued(m', c, p) {
      StandingQueued(m, m', p, c);
    }
    forall p | p in m' ensures Holds(m', p) {
      StandingQueued(m, m', p, p);
      assert Holds(m, p);
    }
  }

  // ---------------------------------------------------------------- steps of the current thread alone

  /** Thread t moves on, and its family stays as it is. */
  ghost predicate SameKin(m: map<Tid, Proc>, t: Tid, q: Proc) {
    && t in m
    && q.parent == m[t].parent && q.released == m[t].released && q.children == m[t].children
    && q.started == m[t].started && Over(q.pc) == Over(m[t].pc)
  }

  /** It moves without changing which children it holds. */
  ghost predicate Moves(m: map<Tid, Proc>, t: Tid, q: Proc) {
    && SameKin(m, t, q)
    && q.list == m[t].list && q.exitVal == m[t].exitVal
    && (q.pc.Collects? || m[t].pc.Collects? ==> q.pc == m[t].pc)
  }

  lemma MovesLists(m: map<Tid, Proc>, t: Tid, q: Proc)
    requires Families(m) && Lists(m) && Moves(m, t, q)
    ensures Families(m[t := q]) && Lists(m[t := q])
  {
    hide Lists, Families;
    FamiliesSame(m, m[t := q]);
    StandingLists(m, m[t := q]);
  }

  lemma MovesValues(m: map<Tid, Proc>, exited: map<Tid, int>, t: Tid, q: Proc)
    requires Values(m, exited) && Moves(m, t, q)
    ensures Values(m[t := q], exited)
  {
  }

  lemma MovesTurn(m: map<Tid, Proc>, cur: Tid, doomed: Option<Tid>, t: Tid, q: Proc)
    requires Turn(m, cur, doomed) && SameKin(m, t, q) && (q.pc.Gone? <==> m[t].pc.Gone?)
    requires q.status == Running ==> t == cur
    ensures Turn(m[t := q], cur, doomed)
  {
    var m' := m[t := q];
    if doomed.Some? && cur != doomed.value {
      assert NewHere(m, cur);
      assert NewHere(m', cur);
    }
  }

  lemma MovesHistory(w: World, t: Tid, q: Proc)
    requires SameKin(w.procs, t, q)
    requires Ids(w.procs, w.exited, w.nextId) && Reports(w.procs, w.exited, w.reports)
    requires Deletions(w.procs, w.reports, w.freed, w.nextId)
    ensures var m := w.procs[t := q];
      Ids(m, w.exited, w.nextId) && Reports(m, w.exited, w.reports) && Deletions(m, w.reports, w.freed, w.nextId)
  {
    hide Reported, WasFreed;
  }

  lemma MovesKeeps(w: World, t: Tid, q: Proc)
    requires Inv(w) && Moves(w.procs, t, q) && t in w.procs && (q.pc.Gone? <==> w.procs[t].pc.Gone?)
    requires q.status == Running ==> t == w.cur
    requires SemOk(t, q) && PhaseOk(q)
    ensures Inv(With(w, t, q))
  {
    hide Families, Lists, Values, Turn, SemOk, PhaseOk, Ids, Reports, Deletions, Locals;
    MovesLists(w.procs, t, q);
    MovesValues(w.procs, w.exited, t, q);
    MovesTurn(w.procs, w.cur, w.doomed, t, q);
    MovesHistory(w, t, q);
    PutLocals(w.procs, t, q);
  }

  lemma PutLocals(m: map<Tid, Proc>, t: Tid, q: Proc)
    requires Locals(m) && SemOk(t, q) && PhaseOk(q)
    ensures Locals(m[t := q])
  {
    hide SemOk, PhaseOk;
  }

  lemma LocalAt(w: World, t: Tid)
    requires Inv(w) && t in w.procs
    ensures SemOk(t, w.procs[t]) && PhaseOk(w.procs[t])
  {
    hide Families, Lists, Values, Turn, Ids, Reports, Deletions, SemOk, PhaseOk;
  }

  lemma QuietKeeps(w: World, e: Event)
    requires Inv(w) && Enabled(w, e)
    requires e.CallWait? || e.CallExit? || e.PassP? || e.Block? || e.Wake?
    ensures Safe(w, e) && Inv(Next(w, e))
  {
    hide Inv;
    var t := if e.Wake? then e.t else w.cur;
    var me := w.procs[t];
    LocalAt(w, t);
    match e {
      case CallWait(wants) =>
        if me.children > 0 {
          MovesKeeps(w, t, me.(pc := Waits(Program(wants))));
        }
      case CallExit(v) => MovesKeeps(w, t, me.(pc := Exits(v)));
      case PassP => MovesKeeps(w, t, Passed(me, t));
      case Block => MovesKeeps(w, t, me.(status := Blocked));
      case Wake(_) => MovesKeeps(w, t, me.(status := Ready));
    }
  }

  // ---------------------------------------------------------------- taking a child off the list

  lemma UnqueueSafe(w: World)
    requires Inv(w) && Enabled(w, Unqueue)
    ensures Safe(w, Unqueue)
    ensures var c := w.procs[w.cur].list[0]; Queued(w.procs, c, w.cur) && IsKid(w.procs, c, w.cur) && c != w.cur
  {
    hide Families, Values, Turn, Reports, Deletions;
    assert SemOk(w.cur, w.procs[w.cur]);
    var c := w.procs[w.cur].list[0];
    assert c in w.procs[w.cur].list;
  }

  ghost predicate Takes(m: map<Tid, Proc>, t: Tid, q: Proc) {
    && SameKin(m, t, q) && m[t].pc.Unqueues? && m[t].list != []
    && q.pc.Collects? && q.pc.child == m[t].list[0] && q.list == m[t].list[1..]
  }

  lemma TookQueued(m: map<Tid, Proc>, t: Tid, q: Proc, p: Tid, c: Tid)
    requires Takes(m, t, q) && Queued(m, m[t].list[0], t) && p in m
    ensures Queued(m[t := q], c, p) <==> Queued(m, c, p) && !(p == t && c == m[t].list[0])
    ensures Holds(m, p) ==> Holds(m[t := q], p)
  {
  }

  lemma TookLists(m: map<Tid, Proc>, t: Tid, q: Proc)
    requires Families(m) && Lists(m) && Takes(m, t, q) && Queued(m, m[t].list[0], t)
    ensures Families(m[t := q]) && Lists(m[t := q])
  {
    hide Families, Queued, Holds;
    var m' := m[t := q];
    FamiliesSame(m, m');
    var c0 := m[t].list[0];
    assert m[t].list == [c0] + q.list;
    assert Distinct(m[t].list) && c0 !in q.list;
    forall p, c | p in m' ensures c in m'[p].list <==> Queued(m', c, p) {
      TookQueued(m, t, q, p, c);
      assert c in m[p].list <==> Queued(m, c, p);
    }
    forall p | p in m' ensures Holds(m', p) {
      TookQueued(m, t, q, p, p);
      assert Holds(m, p);
    }
  }

  lemma TookValues(m: map<Tid, Proc>, exited: map<Tid, int>, t: Tid, q: Proc)
    requires Values(m, exited) && SameKin(m, t, q) && q.exitVal == m[t].exitVal
    requires q.pc.Collects? && IsKid(m, q.pc.child, t) && Over(m[q.pc.child].pc) && q.pc.value == m[q.pc.child].exitVal
    ensures Values(m[t := q], exited)
  {
  }

  ghost function Taker(w: World): Proc
    requires Enabled(w, Unqueue) && Safe(w, Unqueue)
  {
    var me := w.procs[w.cur];
    me.(list := me.list[1..], pc := Collects(me.pc.caller, me.list[0], w.procs[me.list[0]].exitVal))
  }

  lemma UnqueueTakes(w: World)
    requires Inv(w) && Enabled(w, Unqueue)
    ensures Safe(w, Unqueue) && Takes(w.procs, w.cur, Taker(w))
    ensures SemOk(w.cur, Taker(w)) && PhaseOk(Taker(w))
    ensures var c := w.procs[w.cur].list[0];
      Queued(w.procs, c, w.cur) && IsKid(w.procs, c, w.cur) && Over(w.procs[c].pc)
  {
    UnqueueSafe(w);
    hide Inv, SemOk, PhaseOk, SameKin;
    LocalAt(w, w.cur);
    var me := w.procs[w.cur];
    TakerOk(w.procs, w.cur, w.procs[me.list[0]].exitVal);
  }

  lemma TakerOk(m: map<Tid, Proc>, t: Tid, value: int)
    requires t in m && SemOk(t, m[t]) && PhaseOk(m[t]) && m[t].pc.Unqueues? && m[t].list != []
    ensures var q := m[t].(list := m[t].list[1..], pc := Collects(m[t].pc.caller, m[t].list[0], value));
      SemOk(t, q) && PhaseOk(q) && SameKin(m, t, q)
  {
  }

  lemma UnqueueKeeps(w: World)
    requires Inv(w) && Enabled(w, Unqueue)
    ensures Safe(w, Unqueue) && Inv(Next(w, Unqueue))
  {
    hide Families, Lists, Values, Turn, Ids, Reports, Deletions, Locals, Queued, IsKid, SemOk, PhaseOk;
    UnqueueTakes(w);
    var t, q := w.cur, Taker(w);
    TookLists(w.procs, t, q);
    TookValues(w.procs, w.exited, t, q);
    MovesTurn(w.procs, w.cur, w.doomed, t, q);
    MovesHistory(w, t, q);
    PutLocals(w.procs, t, q);
  }

  // ---------------------------------------------------------------- the end of a wait

  lemma DisposeSafe(w: World, junk: int)
    requires Inv(w) && Enabled(w, Dispose(junk))
    ensures Safe(w, Dispose(junk)) && w.doomed.None?
    ensures var c := w.procs[w.cur].pc.child; IsKid(w.procs, c, w.cur) && Over(w.procs[c].pc) && w.procs[c].children == 0
  {
    hide Values, Reports, Deletions;
    var c := w.procs[w.cur].pc.child;
    assert Holds(w.procs, w.cur);
    assert c in Kids(w.procs, w.cur);
    assert PhaseOk(w.procs[c]);
  }

  /** The parent has finished with its child c, which is released or deleted. */
  ghost predicate Reaps(m: map<Tid, Proc>, t: Tid, q: Proc, c: Tid, m': map<Tid, Proc>) {
    && t in m && IsKid(m, c, t) && c != t && Over(m[c].pc) && m[c].children == 0
    && m[t].pc.Collects? && m[t].pc.child == c
    && q == m[t].(children := q.children, pc := q.pc) && q.children == m[t].children - 1
    && (q.pc.User? || q.pc.Exits?)
    && (|| (m'.Keys == m.Keys && m'[c] == m[c].(released := true, exitVal := m'[c].exitVal))
        || (m'.Keys == m.Keys - {c}))
    && m'[t] == q
    && (forall s :: s in m' && s != t && s != c ==> m'[s] == m[s])
  }

  lemma ReapsKids(m: map<Tid, Proc>, t: Tid, q: Proc, c: Tid, m': map<Tid, Proc>)
    requires Reaps(m, t, q, c, m')
    ensures IsKid(m, c, t) && t in m && t != c && m.Keys - {c} <= m'.Keys <= m.Keys
    ensures forall s, p :: IsKid(m', s, p) <==> IsKid(m, s, p) && s != c
    ensures forall p :: p in m' ==> m'[p].children == m[p].children - if p == t then 1 else 0
    ensures m[c].children == 0
  {
  }

  lemma ReapsFamilies(m: map<Tid, Proc>, t: Tid, q: Proc, c: Tid, m': map<Tid, Proc>)
    requires Families(m) && Reaps(m, t, q, c, m')
    ensures Families(m')
    ensures forall s, p :: IsKid(m', s, p) <==> IsKid(m, s, p) && s != c
  {
    ReapsKids(m, t, q, c, m');
    hide Reaps, Kids;
    forall p | p in m' ensures m'[p].children == |Kids(m', p)| {
      KidsLess(m, m', c, p);
      CountLess(m, c, t, p);
    }
    forall s, p | IsKid(m', s, p) ensures p in m' {
      assert IsKid(m, s, p);
      KidCounts(m, s, p);
    }
  }

  lemma CountLess(m: map<Tid, Proc>, c: Tid, t: Tid, p: Tid)
    requires Families(m) && IsKid(m, c, t) && p in m
    ensures |Kids(m, p) - {c}| == m[p].children - if p == t then 1 else 0
  {
    if p == t {
      assert c in Kids(m, p);
    } else {
      assert Kids(m, p) - {c} == Kids(m, p);
    }
  }

  lemma KidCounts(m: map<Tid, Proc>, s: Tid, p: Tid)
    requires Families(m) && IsKid(m, s, p)
    ensures p in m && m[p].children > 0
  {
    assert s in Kids(m, p);
  }

  lemma KidsLess(m: map<Tid, Proc>, m': map<Tid, Proc>, c: Tid, p: Tid)
    requires forall s :: IsKid(m', s, p) <==> IsKid(m, s, p) && s != c
    ensures Kids(m', p) == Kids(m, p) - {c}
  {
    forall s ensures s in Kids(m', p) <==> s in Kids(m, p) && s != c {
    }
  }

  lemma ReapsQueued(m: map<Tid, Proc>, t: Tid, q: Proc, c: Tid, m': map<Tid, Proc>, p: Tid, s: Tid)
    requires Reaps(m, t, q, c, m') && p in m'
    ensures p in m && m'[p].list == m[p].list && (Queued(m', s, p) <==> Queued(m, s, p))
    ensures Holds(m, p) ==> Holds(m', p)
  {
  }

  lemma ReapsLists(m: map<Tid, Proc>, t: Tid, q: Proc, c: Tid, m': map<Tid, Proc>)
    requires Lists(m) && Reaps(m, t, q, c, m')
    ensures Lists(m')
  {
    hide Queued, Holds, Reaps;
    forall p, s | p in m' ensures p in m && m'[p].list == m[p].list && (s in m'[p].list <==> Queued(m', s, p)) {
      ReapsQueued(m, t, q, c, m', p, s);
    }
    forall p | p in m' ensures Holds(m', p) && Distinct(m'[p].list) {
      ReapsQueued(m, t, q, c, m', p, p);
      assert Holds(m, p) && Distinct(m[p].list);
    }
  }

  lemma ReapsLocals(m: map<Tid, Proc>, t: Tid, q: Proc, c: Tid, m': map<Tid, Proc>)
    requires Locals(m) && Reaps(m, t, q, c, m')
    ensures Locals(m')
  {
    assert SemOk(t, m[t]) && PhaseOk(m[t]) && SemOk(c, m[c]) && PhaseOk(m[c]);
    assert SemOk(t, q) && PhaseOk(q);
    forall s | s in m' ensures SemOk(s, m'[s]) && PhaseOk(m'[s]) {
      assert SemOk(s, m[s]) && PhaseOk(m[s]);
    }
  }

  lemma ReapsValues(m: map<Tid, Proc>, exited: map<Tid, int>, t: Tid, q: Proc, c: Tid, m': map<Tid, Proc>)
    requires Values(m, exited) && Reaps(m, t, q, c, m')
    ensures Values(m', exited)
  {
  }

  lemma ReapsTurn(m: map<Tid, Proc>, t: Tid, q: Proc, c: Tid, m': map<Tid, Proc>)
    requires Turn(m, t, None) && Reaps(m, t, q, c, m') && (c in m' ==> !m'[c].pc.Gone?)
    ensures Turn(m', t, None)
  {
  }

  lemma ReportedMore(reports: seq<Report>, r: Report)
    ensures forall t :: Reported(reports + [r], t) <==> Reported(reports, t) || t == r.child
  {
    forall t ensures Reported(reports + [r], t) <==> Reported(reports, t) || t == r.child {
      if Reported(reports, t) {
        var i :| 0 <= i < |reports| && reports[i].child == t;
        assert (reports + [r])[i].child == t;
      }
      assert (reports + [r])[|reports|] == r;
    }
  }

  lemma FreedMore(freed: seq<Freed>, f: Freed)
    ensures forall t :: WasFreed(freed + [f], t) <==> WasFreed(freed, t) || t == f.who
  {
    forall t ensures WasFreed(freed + [f], t) <==> WasFreed(freed, t) || t == f.who {
      if WasFreed(freed, t) {
        var i :| 0 <= i < |freed| && freed[i].who == t;
        assert (freed + [f])[i].who == t;
      }
      assert (freed + [f])[|freed|] == f;
    }
  }

  lemma ReapsReports(m: map<Tid, Proc>, exited: map<Tid, int>, reports: seq<Report>, t: Tid, q: Proc, c: Tid, m': map<Tid, Proc>, r: Report)
    requires Reports(m, exited, reports) && Reaps(m, t, q, c, m')
    requires r.child == c && c in exited && (r.value.Some? ==> r.value.value == exited[c])
    ensures Reports(m', exited, reports + [r])
  {
    ReportedMore(reports, r);
    assert !Reported(reports, c);
    forall i | 0 <= i < |reports| ensures reports[i].child != c {
    }
  }

  lemma ReapsDeletions(m: map<Tid, Proc>, reports: seq<Report>, freed: seq<Freed>, nextId: Tid,
                       t: Tid, q: Proc, c: Tid, m': map<Tid, Proc>, r: Report)
    requires Deletions(m, reports, freed, nextId) && Reaps(m, t, q, c, m') && r.child == c && ROOT <= c < nextId
    ensures var freed' := if c in m' then freed else freed + [ByParent(c)];
      Deletions(m', reports + [r], freed', nextId)
  {
    ReportedMore(reports, r);
    FreedMore(freed, ByParent(c));
    assert !WasFreed(freed, c);
    forall i | 0 <= i < |freed| ensures freed[i].who != c {
    }
    hide Reported, WasFreed;
  }

  ghost function Reaper(w: World): Proc
    requires w.cur in w.procs && w.procs[w.cur].pc.Collects? && w.procs[w.cur].children >= 1
  {
    w.procs[w.cur].(children := w.procs[w.cur].children - 1, pc := Back(w.procs[w.cur].pc.caller))
  }

  lemma DisposedReaps(w: World, junk: int)
    requires Enabled(w, Dispose(junk)) && Safe(w, Dispose(junk))
    requires var c := w.procs[w.cur].pc.child; IsKid(w.procs, c, w.cur) && Over(w.procs[c].pc) && w.procs[c].children == 0
    requires PhaseOk(w.procs[w.procs[w.cur].pc.child])
    ensures var w', c := Disposed(w, junk), w.procs[w.cur].pc.child;
      && Reaps(w.procs, w.cur, Reaper(w), c, w'.procs)
      && (c in w'.procs ==> !w'.procs[c].pc.Gone?)
      && w'.freed == (if c in w'.procs then w.freed else w.freed + [ByParent(c)])
  {
  }

  lemma DisposeReaps(w: World, junk: int)
    requires Inv(w) && Enabled(w, Dispose(junk))
    ensures Safe(w, Dispose(junk)) && w.doomed.None?
    ensures var w', c := Disposed(w, junk), w.procs[w.cur].pc.child;
      && Reaps(w.procs, w.cur, Reaper(w), c, w'.procs)
      && (c in w'.procs ==> !w'.procs[c].pc.Gone?)
      && w'.freed == (if c in w'.procs then w.freed else w.freed + [ByParent(c)])
      && c in w.exited && w.procs[w.cur].pc.value == w.exited[c] && ROOT <= c < w.nextId
  {
    hide Families, Lists, Turn, Reports, Deletions, IsKid, Disposed, Reaps, SemOk, PhaseOk;
    DisposeSafe(w, junk);
    DisposedReaps(w, junk);
  }

  lemma DisposeKeeps(w: World, junk: int)
    requires Inv(w) && Enabled(w, Dispose(junk))
    ensures Safe(w, Dispose(junk)) && Inv(Next(w, Dispose(junk)))
  {
    hide Families, Lists, Locals, Values, Turn, Ids, Reports, Deletions, Reaps, IsKid;
    DisposeReaps(w, junk);
    var m, t, q, c, m' := w.procs, w.cur, Reaper(w), w.procs[w.cur].pc.child, Disposed(w, junk).procs;
    var r := Report(t, c, if Wanted(m[t].pc.caller) then Some(m[t].pc.value) else None);
    ReapsFamilies(m, t, q, c, m');
    ReapsLists(m, t, q, c, m');
    ReapsLocals(m, t, q, c, m');
    ReapsValues(m, w.exited, t, q, c, m');
    ReapsTurn(m, t, q, c, m');
    ReapsReports(m, w.exited, w.reports, t, q, c, m', r);
    ReapsDeletions(m, w.reports, w.freed, w.nextId, t, q, c, m', r);
    ReapsIds(w, t, q, c, m');
  }

  lemma ReapsIds(w: World, t: Tid, q: Proc, c: Tid, m': map<Tid, Proc>)
    requires Ids(w.procs, w.exited, w.nextId) && Reaps(w.procs, t, q, c, m')
    ensures Ids(m', w.exited, w.nextId)
  {
  }
}
