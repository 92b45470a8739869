// The aging bytes in every run: each is the history of the references to its page.

module AgingRuns {
  import opened Options
  import opened FreeBits
  import opened Paging
  import opened PagingOut
  import opened PagingIn
  import opened PagingCow
  import opened PagingFork
  import opened PagingRun
  import opened PagingPolicy
  import opened PagingTheorem
  import opened PagingExit
  import opened Aging

  // ---------------------------------------------------------------- the events of a page

  ghost predicate CopyOnWrite(s: Vm, a: nat, p: nat) {
    Has(s.tables, a, p) && At(s.tables, a, p).cow
  }

  /** What a step means for page p of space a: a new table starts it afresh, a read or
      write of it is a reference, a write that has to copy it starts it afresh first, and a
      refresh of the space ages it. */
  ghost function PageEvents(s: Vm, st: Step, a: nat, p: nat): seq<Event> {
    match st
    case Spawn(b, _) => if b == a then [Forgotten] else []
    case Fork(_, child) => if child == a then [Forgotten] else []
    case Read(cur, addr, _) => if cur == a && addr / PAGE_SIZE == p then [Touched] else []
    case Write(cur, addr, _, _) =>
      if cur == a && addr / PAGE_SIZE == p then
        if CopyOnWrite(s, a, p) then [Forgotten, Touched] else [Touched]
      else []
    case Slide(b) => if b == a then [Aged] else []
    case _ => []
  }

  /** The life of page p of space a over a run, behind what came before it. */
  ghost function EventsOf(s: Vm, steps: seq<Step>, a: nat, p: nat, past: seq<Event>): seq<Event>
    requires Inv(s) && Runs(s, steps)
    decreases |steps|
  {
    if steps == [] then past
    else
      StepRefines(s, steps[0]);
      EventsOf(Next(s, steps[0]), steps[1..], a, p, past + PageEvents(s, steps[0], a, p))
  }

  // ---------------------------------------------------------------- steps that keep every byte

  /** Every entry that is still there has the same byte. */
  ghost predicate KeepsAges(t: Tables, t': Tables) {
    forall b: nat, q: nat :: Has(t', b, q) ==> Has(t, b, q) && At(t', b, q).history == At(t, b, q).history
  }

  lemma OutKeepsAges(s: Vm, f: nat)
    requires CanPageOut(s, f)
    ensures KeepsAges(s.tables, PageOut(s, f).tables)
  {
    OutTables(s, f);
    hide PageOut, CanPageOut;
  }

  lemma AllocKeepsAges(s: Vm, cur: nat, notMe: int, victim: nat)
    requires CanAlloc(s, cur, notMe, victim)
    ensures KeepsAges(s.tables, Alloc(s, cur, notMe, victim).tables)
  {
    hide Alloc, CanAlloc;
    var t' := Alloc(s, cur, notMe, victim).tables;
    forall b: nat, q: nat | Has(t', b, q)
      ensures Has(s.tables, b, q) && At(t', b, q).history == At(s.tables, b, q).history
    {
      AllocEntry(s, cur, notMe, victim, b, q);
    }
  }

  lemma LoadKeepsAges(s: Vm, a: nat, p: nat, dest: nat, now: nat)
    requires LoadOk(s, a, p, dest, now)
    ensures KeepsAges(s.tables, Load(s, a, p, dest, now).tables)
  {
    LoadTables(s, a, p, dest, now);
    hide Load, LoadOk, CanLoad;
  }

  lemma PageInKeepsAges(s: Vm, cur: nat, a: nat, p: nat, victim: nat, now: nat)
    requires Core(s) && CanPageIn(s, cur, a, p, victim) && now < NEVER
    ensures KeepsAges(s.tables, PageIn(s, cur, a, p, victim, now).tables)
  {
    hide Core, Load, Alloc, LoadOk, CanPageOut;
    InReady(s, cur, a, p, victim, now);
    AllocKeepsAges(s, cur, -1, victim);
    LoadKeepsAges(Alloc(s, cur, -1, victim), a, p, AllocFrame(s, cur, victim), now);
  }

  lemma ExitKeepsAges(s: Vm, a: nat)
    requires Core(s) && a in s.tables
    ensures KeepsAges(s.tables, ExitSpace(s, a).tables)
  {
    var s' := ExitSpace(s, a);
    ExitKeeps(s, a);
    hide Core, ExitSpace, Remains;
    forall b: nat, q: nat | Has(s'.tables, b, q)
      ensures Has(s.tables, b, q) && At(s'.tables, b, q).history == At(s.tables, b, q).history
    {
      assert b != a && Has(s.tables, b, q);
      ExitUnshares(s, a, b, q);
    }
  }

  // ---------------------------------------------------------------- fork

  /** The child starts with empty bytes; the others keep theirs. */
  lemma {:induction false} SharePagesAges(s: Vm, cur: nat, child: nat, n: nat, b: nat, q: nat)
    requires Core(s) && cur in s.tables && child in s.tables && cur != child
    requires s.tables[child] == [] && n <= |s.tables[cur]| && Has(SharePages(s, cur, child, n).tables, b, q)
    ensures b != child ==> Has(s.tables, b, q)
    ensures At(SharePages(s, cur, child, n).tables, b, q).history ==
      if b == child then 0 else At(s.tables, b, q).history
    decreases n
  {
    hide Core, SharePage, CanShare;
    if n > 0 {
      var s1 := SharePages(s, cur, child, n - 1);
      ShareStep(s1, cur, child);
      ShareKeeps(s1, cur, child);
      if b != child || q < n - 1 {
        SharePagesAges(s, cur, child, n - 1, b, q);
      }
    }
  }

  lemma ForkAges(s: Vm, cur: nat, child: nat, b: nat, q: nat)
    requires Core(s) && cur in s.tables && child !in s.tables && Has(ForkSpace(s, cur, child).tables, b, q)
    ensures b != child ==> Has(s.tables, b, q)
    ensures At(ForkSpace(s, cur, child).tables, b, q).history == if b == child then 0 else At(s.tables, b, q).history
  {
    AddKeeps(s, child, []);
    hide Core, SharePages;
    SharePagesAges(AddSpace(s, child, []), cur, child, |s.tables[cur]|, b, q);
  }

  // ---------------------------------------------------------------- every step

  /** Each byte after a step is the byte before it after the events that the step means for
      its page. A page that was not there has just been made. */
  lemma StepAges(s: Vm, st: Step, a: nat, p: nat)
    requires Inv(s) && Enabled(s, st) && Has(Next(s, st).tables, a, p)
    ensures !Has(s.tables, a, p) ==> PageEvents(s, st, a, p) == [Forgotten]
    ensures At(Next(s, st).tables, a, p).history ==
      After(if Has(s.tables, a, p) then At(s.tables, a, p).history else 0, PageEvents(s, st, a, p))
  {
    hide Core, EnoughUsable, PageIn, Access, ForkSpace, ExitSpace, PageOut, SameButUse, CanPageOut, CanAlloc, Shifted;
    AfterFew();
    match st {
      case Fault(cur, b, page, victim, now) => PageInKeepsAges(s, cur, b, page, victim, now);
      case Read(cur, addr, size) => AccessEntry(s, cur, addr / PAGE_SIZE, false, 0, a, p);
      case Write(cur, addr, bytes, victim) => WriteAges(s, cur, addr, bytes, victim, a, p);
      case Fork(cur, child) => ForkAges(s, cur, child, a, p);
      case Exit(b) => ExitKeepsAges(s, b);
      case Spawn(b, table) => SpawnAges(s, b, table, a, p);
      case Contract(cur, victim) => OutKeepsAges(s, victim);
      case Choose(b, notMe, scans) => ScanAges(s, b, notMe, a, p);
      case SetLimit(b, limit) =>
      case Slide(b) => SlideAges(s, b, a, p);
    }
  }

  lemma AfterFew()
    ensures forall h :: After(h, []) == h
    ensures forall h :: After(h, [Forgotten]) == 0
    ensures forall h :: After(h, [Touched]) == h | 0x80
    ensures forall h :: After(h, [Aged]) == h >> 1
    ensures forall h :: After(h, [Forgotten, Touched]) == 0x80
  {
    forall h: bv8, ev: Event ensures After(h, [ev]) == Shifted(h, ev) {
      assert [ev][..0] == [];
    }
    forall h: bv8 ensures After(h, [Forgotten, Touched]) == 0x80 {
      assert [Forgotten, Touched][..1] == [Forgotten];
    }
  }

  lemma WriteAges(s: Vm, cur: nat, addr: nat, bytes: seq<bv8>, victim: nat, a: nat, p: nat)
    requires Inv(s) && Enabled(s, Write(cur, addr, bytes, victim))
    requires Has(Next(s, Write(cur, addr, bytes, victim)).tables, a, p)
    ensures Has(s.tables, a, p)
    ensures At(Next(s, Write(cur, addr, bytes, victim)).tables, a, p).history ==
      if (a, p) != (cur, addr / PAGE_SIZE) then At(s.tables, a, p).history
      else if At(s.tables, a, p).cow then 0x80
      else At(s.tables, a, p).history | 0x80
  {
    hide Core, EnoughUsable, Access, CanAlloc;
    AccessEntry(s, cur, addr / PAGE_SIZE, true, victim, a, p);
  }

  lemma SpawnAges(s: Vm, b: nat, table: seq<Entry>, a: nat, p: nat)
    requires forall q :: 0 <= q < |table| ==> FreshEntry(table[q])
    requires Has(AddSpace(s, b, table).tables, a, p)
    ensures a != b ==> Has(s.tables, a, p)
    ensures At(AddSpace(s, b, table).tables, a, p).history == if a == b then 0 else At(s.tables, a, p).history
  {
  }

  lemma ScanAges(s: Vm, b: nat, notMe: int, a: nat, p: nat)
    requires b in s.tables && Has(Scanned(s, b, notMe).tables, a, p)
    ensures Has(s.tables, a, p) && At(Scanned(s, b, notMe).tables, a, p).history == At(s.tables, a, p).history
  {
  }

  lemma SlideAges(s: Vm, b: nat, a: nat, p: nat)
    requires b in s.tables && Has(s.tables[b := SlidTable(s.tables[b])], a, p)
    ensures Has(s.tables, a, p)
    ensures At(s.tables[b := SlidTable(s.tables[b])], a, p).history ==
      if a == b then At(s.tables, a, p).history >> 1 else At(s.tables, a, p).history
  {
  }

  /** In every run, the aging byte of every page is the history of its events. */
  lemma {:induction false} AgesOverRun(s: Vm, steps: seq<Step>, a: nat, p: nat, past: seq<Event>)
    requires Inv(s) && Runs(s, steps)
    requires Has(s.tables, a, p) ==> At(s.tables, a, p).history == History(past)
    ensures Has(Final(s, steps).tables, a, p) ==>
      At(Final(s, steps).tables, a, p).history == History(EventsOf(s, steps, a, p, past))
    decreases |steps|
  {
    hide Core, EnoughUsable, Enabled, Next, PageEvents, After;
    if steps != [] {
      var st := steps[0];
      StepRefines(s, st);
      if Has(Next(s, st).tables, a, p) {
        StepAges(s, st, a, p);
        AfterAdd(0, past, PageEvents(s, st, a, p));
        if !Has(s.tables, a, p) {
          Reset(past);
        }
      }
      AgesOverRun(Next(s, st), steps[1..], a, p, past + PageEvents(s, st, a, p));
    }
  }

  lemma Reset(past: seq<Event>)
    ensures After(After(0, past), [Forgotten]) == After(0, [Forgotten])
  {
    AfterFew();
  }

  // ---------------------------------------------------------------- the working set

  /** The life of a page in a run from start-up. */
  ghost function Life(s0: Vm, steps: seq<Step>, a: nat, p: nat): seq<Event>
    requires Inv(s0) && Runs(s0, steps)
  {
    EventsOf(s0, steps, a, p, [])
  }

  /** The run leads from start-up to s. */
  ghost predicate Reaches(s0: Vm, steps: seq<Step>, s: Vm) {
    Boot(s0) && Leads(s0, steps, s)
  }

  /** The pages of a space that were referenced in one of the last d windows of the run. */
  ghost function RecentPages(s0: Vm, steps: seq<Step>, a: nat, d: nat): set<nat>
    requires Inv(s0) && Runs(s0, steps)
  {
    set p: nat | p < PagesOf(Final(s0, steps), a) && Recent(Life(s0, steps, a, p), d)
  }

  ghost function PagesOf(s: Vm, a: nat): nat {
    if a in s.tables then |s.tables[a]| else 0
  }

  /** How many aging bytes have a bit under the mask: what `refreshWss` counts. */
  function Referenced(t: seq<Entry>, mask: bv8): (n: nat)
    ensures n <= |t|
    decreases |t|
  {
    if t == [] then 0
    else Referenced(t[..|t| - 1], mask) + (if t[|t| - 1].history & mask != 0 then 1 else 0)
  }

  ghost function Masked(t: seq<Entry>, mask: bv8): set<nat> {
    set p: nat | p < |t| && HasBits(t[p], mask)
  }

  predicate HasBits(e: Entry, mask: bv8) {
    e.history & mask != 0
  }

  lemma {:induction false} CountMasked(t: seq<Entry>, mask: bv8)
    ensures Referenced(t, mask) == |Masked(t, mask)|
    decreases |t|
  {
    hide HasBits;
    if t == [] {
      assert Masked(t, mask) == {};
    } else {
      var n := |t| - 1;
      CountMasked(t[..n], mask);
      LastMasked(t, mask);
      assert Masked(t, mask) == Masked(t[..n], mask) + if HasBits(t[n], mask) then {n} else {};
    }
  }

  lemma LastMasked(t: seq<Entry>, mask: bv8)
    requires t != []
    ensures Referenced(t, mask) ==
      Referenced(t[..|t| - 1], mask) + if HasBits(t[|t| - 1], mask) then 1 else 0
  {
  }

  /** In every run from start-up, the count under the mask for d windows is the number of
      pages of the space that were referenced in the last d windows of the run. */
  lemma CountIsReferenced(s0: Vm, steps: seq<Step>, s: Vm, a: nat, d: nat)
    requires Reaches(s0, steps, s) && a in s.tables && Delta(d)
    ensures Referenced(s.tables[a], DeltaMask(d)) == |RecentPages(s0, steps, a, d)|
  {
    hide Core, EnoughUsable, Runs, Final, History, Recent, DeltaMask;
    var t := s.tables[a];
    CountMasked(t, DeltaMask(d));
    forall p: nat | p < |t| ensures HasBits(t[p], DeltaMask(d)) <==> Recent(Life(s0, steps, a, p), d) {
      AgesOverRun(s0, steps, a, p, []);
      assert At(s.tables, a, p) == t[p];
      MaskedHistory(Life(s0, steps, a, p), d);
    }
    hide HasBits, Life;
    assert Masked(t, DeltaMask(d)) == RecentPages(s0, steps, a, d);
  }

  // ---------------------------------------------------------------- least recently used

  /** Page b of space a was used less recently than page i, in a run; or alike, and it was
      loaded no later. */
  ghost predicate UsedBefore(s0: Vm, steps: seq<Step>, a: nat, b: nat, i: nat)
    requires Inv(s0) && Runs(s0, steps)
    requires Has(Final(s0, steps).tables, a, b) && Has(Final(s0, steps).tables, a, i)
  {
    var t := Final(s0, steps).tables;
    || LessRecent(Life(s0, steps, a, b), Life(s0, steps, a, i))
    || (SameAgo(Life(s0, steps, a, b), Life(s0, steps, a, i), 8) && At(t, a, b).time <= At(t, a, i).time)
  }

  /** In every run from start-up, the frame that LRU gives up is that of the page of the
      space that was used least recently. */
  lemma LruIsLeastRecent(s0: Vm, steps: seq<Step>, s: Vm, a: nat, notMe: int, v: nat) returns (b: nat)
    requires Reaches(s0, steps, s) && a in s.tables && LruChoice(s.tables[a], notMe, v)
    ensures Candidate(s.tables[a], b, notMe) && v == s.tables[a][b].frame
    ensures forall i: nat :: Candidate(s.tables[a], i, notMe) ==> UsedBefore(s0, steps, a, b, i)
  {
    hide Core, EnoughUsable, Runs, Final, History, Life, LessRecent, SameAgo;
    var t := s.tables[a];
    b :| Candidate(t, b, notMe) && v == t[b].frame && forall i :: Candidate(t, i, notMe) ==> LruBefore(t, b, i);
    forall i: nat | Candidate(t, i, notMe) ensures UsedBefore(s0, steps, a, b, i) {
      AgeOf(s0, steps, s, a, b);
      AgeOf(s0, steps, s, a, i);
      assert LruBefore(t, b, i);
      SmallerHistory(Life(s0, steps, a, b), Life(s0, steps, a, i));
    }
  }

  lemma AgeOf(s0: Vm, steps: seq<Step>, s: Vm, a: nat, p: nat)
    requires Reaches(s0, steps, s) && Has(s.tables, a, p)
    ensures s.tables[a][p].history == History(Life(s0, steps, a, p))
  {
    AgesOverRun(s0, steps, a, p, []);
    assert At(s.tables, a, p) == s.tables[a][p];
  }
}
