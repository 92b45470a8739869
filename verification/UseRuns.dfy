// The use bits in every run: each says whether its page was accessed since it was last
// cleared.

module UseRuns {
  import opened Options
  import opened FreeBits
  import opened Paging
  import opened PagingOut
  import opened PagingIn
  import opened PagingCow
  import opened PagingFork
  import opened PagingRun
  import opened PagingPolicy
  import opened PagingTheorem
  import opened PagingExit

  // ---------------------------------------------------------------- the events of a page

  datatype Event = Used | Unused

  /** There is an access behind which the bit was not cleared. */
  ghost predicate UsedSince(evs: seq<Event>) {
    exists i :: 0 <= i < |evs| && evs[i] == Used && forall k :: i < k < |evs| ==> evs[k] != Unused
  }

  ghost predicate MappedAt(s: Vm, a: nat, p: nat) {
    Has(s.tables, a, p) && At(s.tables, a, p).valid
  }

  /** What a step means for page p of space a. A read or write of it is an access. Its use
      is forgotten when it is loaded, whoever's fault that was, in a new space and in the
      child of a fork, and by a scan of its space that may take its frame. */
  ghost function UseEvents(s: Vm, st: Step, a: nat, p: nat): seq<Event>
    requires Core(s) && Enabled(s, st)
  {
    match st
    case Fault(_, _, _, _, _) => if !MappedAt(s, a, p) && MappedAt(Next(s, st), a, p) then [Unused] else []
    case Read(cur, addr, _) => if cur == a && addr / PAGE_SIZE == p then [Used] else []
    case Write(cur, addr, _, _) => if cur == a && addr / PAGE_SIZE == p then [Used] else []
    case Fork(_, child) => if child == a then [Unused] else []
    case Spawn(b, _) => if b == a then [Unused] else []
    case Choose(b, notMe, scans) =>
      if scans && b == a && MappedAt(s, a, p) && At(s.tables, a, p).frame != notMe then [Unused] else []
    case _ => []
  }

  ghost function UsesOf(s: Vm, steps: seq<Step>, a: nat, p: nat, past: seq<Event>): seq<Event>
    requires Inv(s) && Runs(s, steps)
    decreases |steps|
  {
    if steps == [] then past
    else
      StepRefines(s, steps[0]);
      UsesOf(Next(s, steps[0]), steps[1..], a, p, past + UseEvents(s, steps[0], a, p))
  }

  lemma UsedSinceMore(evs: seq<Event>, ev: Event)
    ensures UsedSince(evs + [ev]) <==> ev == Used
  {
    assert (evs + [ev])[|evs|] == ev;
  }

  // ---------------------------------------------------------------- every step

  lemma FaultUse(s: Vm, cur: nat, a: nat, p: nat, victim: nat, now: nat, b: nat, q: nat)
    requires Core(s) && CanPageIn(s, cur, a, p, victim) && now < NEVER
    requires MappedAt(PageIn(s, cur, a, p, victim, now), b, q)
    ensures var e' := At(PageIn(s, cur, a, p, victim, now).tables, b, q);
      if MappedAt(s, b, q) then e'.use == At(s.tables, b, q).use && e'.time == At(s.tables, b, q).time
      else !e'.use && e'.time == now
  {
    hide Core, Load, Alloc, LoadOk, CanPageOut, Stored;
    InReady(s, cur, a, p, victim, now);
    AllocKeeps(s, cur, -1, victim);
    AllocKeepsPage(s, cur, -1, victim, a, p);
    var s1, d := Alloc(s, cur, -1, victim), AllocFrame(s, cur, victim);
    LoadUse(s1, a, p, d, now, b, q);
    AllocEntry(s, cur, -1, victim, b, q);
    if MappedAt(s, b, q) && !MappedAt(s1, b, q) {
      NotReloaded(s, cur, victim, a, p, now, b, q);
    }
  }

  /** A page that has just been paged out to make room is not among those that come in:
      it was mapped, and they have a sharer in common with a page that was not. */
  lemma NotReloaded(s: Vm, cur: nat, victim: nat, a: nat, p: nat, now: nat, b: nat, q: nat)
    requires Core(s) && CanAlloc(s, cur, -1, victim) && MappedAt(s, b, q) && Has(s.tables, a, p)
    requires !At(s.tables, a, p).valid
    requires var s1, d := Alloc(s, cur, -1, victim), AllocFrame(s, cur, victim);
      && LoadOk(s1, a, p, d, now) && Has(s1.tables, b, q) && !MappedAt(s1, b, q)
    ensures var s1, d := Alloc(s, cur, -1, victim), AllocFrame(s, cur, victim);
      !MappedAt(Load(s1, a, p, d, now), b, q)
  {
    var s1, d := Alloc(s, cur, -1, victim), AllocFrame(s, cur, victim);
    assert !FindsFree(s, cur);
    assert s1 == PageOut(s, victim);
    OutTables(s, victim);
    LoadTables(s1, a, p, d, now);
    if q == p {
      NoSharerIsOut(s, victim, a, p, b);
    }
  }

  lemma NoSharerIsOut(s: Vm, f: nat, a: nat, p: nat, b: nat)
    requires Core(s) && CanPageOut(s, f) && Has(s.tables, a, p) && Has(s.tables, b, p)
    requires b in s.frames[f].owners && s.frames[f].page == p && !At(s.tables, a, p).valid
    requires Core(PageOut(s, f))
    ensures var e := At(s.tables, a, p);
      if e.file == Swap then Slot(e) < |PageOut(s, f).slots| ==> b !in PageOut(s, f).slots[Slot(e)].owners
      else b != a
  {
    OwnerMaps(s, f, b);
    NotOwner(s, f, a, p);
    var s1, e := PageOut(s, f), At(s.tables, a, p);
    OutTables(s, f);
    hide CanPageOut, PageOut;
    if e.file == Swap {
      RefOwned(Disk, s1, a, p);
      OutSlotEntry(s, f, Slot(e), a);
      if b in s1.slots[Slot(e)].owners {
        OutSlotEntry(s, f, Slot(e), b);
      }
    }
    hide Core;
  }

  lemma NotOwner(s: Vm, f: nat, a: nat, p: nat)
    requires Core(s) && f < |s.frames| && Has(s.tables, a, p) && !At(s.tables, a, p).valid && s.frames[f].page == p
    ensures a !in s.frames[f].owners
  {
    if a in s.frames[f].owners {
      OwnerMaps(s, f, a);
    }
  }

  lemma LoadUse(s: Vm, a: nat, p: nat, dest: nat, now: nat, b: nat, q: nat)
    requires LoadOk(s, a, p, dest, now) && MappedAt(Load(s, a, p, dest, now), b, q)
    ensures Has(s.tables, b, q)
    ensures var e' := At(Load(s, a, p, dest, now).tables, b, q);
      if MappedAt(s, b, q) then e'.use == At(s.tables, b, q).use && e'.time == At(s.tables, b, q).time
      else !e'.use && e'.time == now
  {
    LoadTables(s, a, p, dest, now);
    HitUnmapped(s, a, p, dest, now, b, q);
    hide Load, LoadOk, CanLoad;
  }

  lemma ForkUse(s: Vm, cur: nat, child: nat, b: nat, q: nat)
    requires Core(s) && cur in s.tables && child !in s.tables && MappedAt(ForkSpace(s, cur, child), b, q)
    ensures var e' := At(ForkSpace(s, cur, child).tables, b, q);
      if b == child then !e'.use && MappedAt(s, cur, q) && e'.time == At(s.tables, cur, q).time
      else MappedAt(s, b, q) && e'.use == At(s.tables, b, q).use && e'.time == At(s.tables, b, q).time
  {
    AddKeeps(s, child, []);
    hide Core, SharePages;
    SharePagesUse(AddSpace(s, child, []), cur, child, |s.tables[cur]|, b, q);
  }

  lemma {:induction false} SharePagesUse(s: Vm, cur: nat, child: nat, n: nat, b: nat, q: nat)
    requires Core(s) && cur in s.tables && child in s.tables && cur != child
    requires s.tables[child] == [] && n <= |s.tables[cur]| && MappedAt(SharePages(s, cur, child, n), b, q)
    ensures var e' := At(SharePages(s, cur, child, n).tables, b, q);
      if b == child then !e'.use && MappedAt(s, cur, q) && e'.time == At(s.tables, cur, q).time
      else MappedAt(s, b, q) && e'.use == At(s.tables, b, q).use && e'.time == At(s.tables, b, q).time
    decreases n
  {
    hide Core, SharePage, CanShare;
    if n > 0 {
      var s1 := SharePages(s, cur, child, n - 1);
      ShareStep(s1, cur, child);
      ShareKeeps(s1, cur, child);
      if b != child || q < n - 1 {
        SharePagesUse(s, cur, child, n - 1, b, q);
      } else {
        SharePagesUse(s, cur, child, n - 1, cur, q);
      }
    }
  }

  lemma ExitUse(s: Vm, a: nat, b: nat, q: nat)
    requires Core(s) && a in s.tables && MappedAt(ExitSpace(s, a), b, q)
    ensures var e' := At(ExitSpace(s, a).tables, b, q);
      MappedAt(s, b, q) && e'.use == At(s.tables, b, q).use && e'.time == At(s.tables, b, q).time
  {
    ExitKeeps(s, a);
    hide Core, ExitSpace, Remains;
    ExitUnshares(s, a, b, q);
  }

  lemma OutUse(s: Vm, f: nat, b: nat, q: nat)
    requires CanPageOut(s, f) && MappedAt(PageOut(s, f), b, q)
    ensures var e' := At(PageOut(s, f).tables, b, q);
      MappedAt(s, b, q) && e'.use == At(s.tables, b, q).use && e'.time == At(s.tables, b, q).time
  {
    OutTables(s, f);
    hide PageOut, CanPageOut;
  }

  /** The use bit of a page that is mapped behind a step: the step's last event for the
      page decides it, and without one the page was mapped before and has the bit it had. */
  lemma StepUse(s: Vm, st: Step, a: nat, p: nat)
    requires Inv(s) && Enabled(s, st) && MappedAt(Next(s, st), a, p)
    ensures var evs := UseEvents(s, st, a, p);
      if evs == [] then MappedAt(s, a, p) && At(Next(s, st).tables, a, p).use == At(s.tables, a, p).use
      else At(Next(s, st).tables, a, p).use <==> evs == [Used]
    ensures |UseEvents(s, st, a, p)| <= 1
  {
    hide Core, EnoughUsable, PageIn, Access, ForkSpace, ExitSpace, PageOut, CanPageOut, CanAlloc;
    match st {
      case Fault(cur, b, page, victim, now) => FaultUse(s, cur, b, page, victim, now, a, p);
      case Read(cur, addr, size) => AccessEntry(s, cur, addr / PAGE_SIZE, false, 0, a, p);
      case Write(cur, addr, bytes, victim) => WriteUse(s, cur, addr, bytes, victim, a, p);
      case Fork(cur, child) => ForkUse(s, cur, child, a, p);
      case Exit(b) => ExitUse(s, b, a, p);
      case Spawn(b, table) =>
      case Contract(cur, victim) => OutUse(s, victim, a, p);
      case Choose(b, notMe, scans) =>
      case SetLimit(b, limit) =>
      case Slide(b) =>
    }
  }

  /** The load time of a page that is mapped behind a step: the time of the fault that has
      loaded it, 0 if a write has just copied it, in the child of a fork that of the
      parent's page, and else what it was. */
  lemma StepTime(s: Vm, st: Step, a: nat, p: nat)
    requires Inv(s) && Enabled(s, st) && MappedAt(Next(s, st), a, p)
    ensures var time := At(Next(s, st).tables, a, p).time;
      match st
      case Fault(_, _, _, _, now) => time == if MappedAt(s, a, p) then At(s.tables, a, p).time else now
      case Write(cur, addr, _, _) =>
        && MappedAt(s, a, p)
        && time == if cur == a && addr / PAGE_SIZE == p && At(s.tables, a, p).cow then 0 else At(s.tables, a, p).time
      case Fork(cur, child) =>
        var b := if a == child then cur else a;
        MappedAt(s, b, p) && time == At(s.tables, b, p).time
      case _ => MappedAt(s, a, p) && time == At(s.tables, a, p).time
  {
    hide Core, EnoughUsable, PageIn, Access, ForkSpace, ExitSpace, PageOut, CanPageOut, CanAlloc;
    match st {
      case Fault(cur, b, page, victim, now) => FaultUse(s, cur, b, page, victim, now, a, p);
      case Read(cur, addr, size) => AccessEntry(s, cur, addr / PAGE_SIZE, false, 0, a, p);
      case Write(cur, addr, bytes, victim) => WriteUse(s, cur, addr, bytes, victim, a, p);
      case Fork(cur, child) => ForkUse(s, cur, child, a, p);
      case Exit(b) => ExitUse(s, b, a, p);
      case Spawn(b, table) =>
      case Contract(cur, victim) => OutUse(s, victim, a, p);
      case Choose(b, notMe, scans) =>
      case SetLimit(b, limit) =>
      case Slide(b) =>
    }
  }

  lemma WriteUse(s: Vm, cur: nat, addr: nat, bytes: seq<bv8>, victim: nat, a: nat, p: nat)
    requires Inv(s) && Enabled(s, Write(cur, addr, bytes, victim))
    requires MappedAt(Next(s, Write(cur, addr, bytes, victim)), a, p)
    ensures Has(s.tables, a, p)
    ensures var e, e' := At(s.tables, a, p), At(Next(s, Write(cur, addr, bytes, victim)).tables, a, p);
      if (a, p) == (cur, addr / PAGE_SIZE) then e.valid && e'.use && e'.time == (if e.cow then 0 else e.time)
      else e.valid && e'.use == e.use && e'.time == e.time
  {
    hide Core, EnoughUsable, Access, CanAlloc;
    AccessEntry(s, cur, addr / PAGE_SIZE, true, victim, a, p);
  }

  // ---------------------------------------------------------------- every run

  lemma {:induction false} UsesOverRun(s: Vm, steps: seq<Step>, a: nat, p: nat, past: seq<Event>)
    requires Inv(s) && Runs(s, steps)
    requires MappedAt(s, a, p) ==> (At(s.tables, a, p).use <==> UsedSince(past))
    ensures MappedAt(Final(s, steps), a, p) ==>
      (At(Final(s, steps).tables, a, p).use <==> UsedSince(UsesOf(s, steps, a, p, past)))
    decreases |steps|
  {
    hide Core, EnoughUsable, Enabled, Next, UseEvents, UsedSince, MappedAt;
    if steps != [] {
      var st := steps[0];
      StepRefines(s, st);
      var evs := UseEvents(s, st, a, p);
      if MappedAt(Next(s, st), a, p) {
        StepUse(s, st, a, p);
        if evs == [] {
          assert past + evs == past;
        } else {
          assert evs == [evs[0]];
          UsedSinceMore(past, evs[0]);
        }
      }
      UsesOverRun(Next(s, st), steps[1..], a, p, past + evs);
    }
  }

  /** In every run from start-up, the use bit of a mapped page is set if and only if a read
      or write of it lies behind its last load, fork, and scan that cleared it. */
  lemma UseBitOverRun(s0: Vm, steps: seq<Step>, a: nat, p: nat)
    requires Boot(s0) && Inv(s0) && Runs(s0, steps) && MappedAt(Final(s0, steps), a, p)
    ensures At(Final(s0, steps).tables, a, p).use <==> UsedSince(UsesOf(s0, steps, a, p, []))
  {
    hide Core, EnoughUsable, UsedSince;
    UsesOverRun(s0, steps, a, p, []);
  }
}
