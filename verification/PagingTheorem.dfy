// The paging system refines a map from address spaces to private arrays of pages.

module PagingTheorem {
  import opened Sequences
  import opened Options
  import opened FreeBits
  import opened Paging
  import opened PagingOut
  import opened PagingIn
  import opened PagingCow
  import opened PagingFork
  import opened PagingRun
  import opened PagingPolicy

  // ---------------------------------------------------------------- counting frames

  ghost function FramesOf(t: seq<Entry>): set<nat> {
    set p: nat | p < |t| && t[p].valid :: t[p].frame
  }

  ghost predicate Injective(t: seq<Entry>) {
    forall p, q :: 0 <= p < q < |t| && t[p].valid && t[q].valid ==> t[p].frame != t[q].frame
  }

  lemma {:induction false} FramesCounted(t: seq<Entry>)
    requires Injective(t)
    ensures |FramesOf(t)| == Valids(t)
    decreases |t|
  {
    if t != [] {
      var n := |t| - 1;
      FramesCounted(t[..n]);
      FramesMore(t, n);
      hide FramesOf, Injective;
    }
  }

  lemma FramesMore(t: seq<Entry>, n: nat)
    requires Injective(t) && n == |t| - 1
    ensures FramesOf(t) == FramesOf(t[..n]) + if t[n].valid then {t[n].frame} else {}
    ensures t[n].valid ==> t[n].frame !in FramesOf(t[..n])
  {
  }

  /** A space maps at least as many usable frames as it has valid pages. */
  lemma ValidsUsable(s: Vm, a: nat)
    requires Core(s) && a in s.tables
    ensures |UsableSet(s)| >= Valids(s.tables[a])
  {
    var t := s.tables[a];
    forall p, q | 0 <= p < q < |t| && t[p].valid && t[q].valid ensures t[p].frame != t[q].frame {
      assert At(s.tables, a, p) == t[p] && At(s.tables, a, q) == t[q];
    }
    FramesCounted(t);
    forall f | f in FramesOf(t) ensures f in UsableSet(s) {
      var p: nat :| p < |t| && t[p].valid && t[p].frame == f;
      assert At(s.tables, a, p) == t[p];
      assert Owns(s.frames, f, a);
    }
    SubsetSize(FramesOf(t), UsableSet(s));
  }

  lemma {:induction false} SubsetSize(x: set<nat>, y: set<nat>)
    requires x <= y
    ensures |x| <= |y|
    decreases |x|
  {
    if x != {} {
      var f :| f in x;
      SubsetSize(x - {f}, y - {f});
    }
  }

  lemma UsableGrows(s: Vm, s': Vm)
    requires Sizes(s) && Sizes(s') && EnoughUsable(s)
    requires forall f: nat :: Usable(s, f) ==> Usable(s', f)
    ensures EnoughUsable(s')
  {
    SubsetSize(UsableSet(s), UsableSet(s'));
  }

  lemma {:induction false} ValidsDrop(t: seq<Entry>, t': seq<Entry>, p: nat)
    requires |t'| == |t|
    requires forall q :: 0 <= q < |t| && q != p ==> t'[q].valid == t[q].valid
    ensures Valids(t') >= Valids(t) - 1
    ensures p < |t| && t[p].valid && !t'[p].valid ==> Valids(t') == Valids(t) - 1
    ensures p < |t| ==> t'[p].valid == t[p].valid ==> Valids(t') == Valids(t)
    ensures p >= |t| ==> Valids(t') == Valids(t)
    ensures p < |t| ==> (t'[p].valid ==> t[p].valid) ==> Valids(t') <= Valids(t)
    decreases |t|
  {
    if t != [] {
      var n := |t| - 1;
      ValidsDrop(t[..n], t'[..n], p);
    }
  }

  // ---------------------------------------------------------------- contraction

  /** One pass of the contraction loop of `refreshWss`. It runs only while the space
      has more pages than its limit allows, so a fault can still find a frame. */
  lemma ContractKeeps(s: Vm, cur: nat, f: nat)
    requires Core(s) && cur in s.tables && TooMany(s, cur) && CanPageOut(s, f)
    ensures Core(PageOut(s, f)) && EnoughUsable(PageOut(s, f))
    ensures SameContents(s, PageOut(s, f))
    ensures cur in s.frames[f].owners ==>
      Valids(PageOut(s, f).tables[cur]) == Valids(s.tables[cur]) - 1
  {
    var s' := PageOut(s, f);
    PageOutKeeps(s, f);
    OutTables(s, f);
    ContractCount(s, cur, f, s');
    forall b: nat, q: nat | Has(s.tables, b, q)
      ensures Content(s', At(s'.tables, b, q)) == Content(s, At(s.tables, b, q))
    {
      OutContent(s, f, b, q);
    }
    hide Core, Content, Stored, CanPageOut, Sizes;
    SameHas(s.tables, s'.tables);
    ValidsUsable(s', cur);
    LimitAtLeast(s, cur);
  }

  lemma LimitAtLeast(s: Vm, a: nat)
    requires Core(s) && a in s.tables
    ensures a in s.wss && s.wss[a] >= MIN_WORKING_SET
  {
  }

  lemma ContractCount(s: Vm, cur: nat, f: nat, s': Vm)
    requires Core(s) && cur in s.tables && CanPageOut(s, f) && s' == PageOut(s, f)
    ensures cur in s'.tables
    ensures Valids(s.tables[cur]) - 1 <= Valids(s'.tables[cur]) <= Valids(s.tables[cur])
    ensures cur in s.frames[f].owners ==> Valids(s'.tables[cur]) == Valids(s.tables[cur]) - 1
  {
    OutTables(s, f);
    var p := s.frames[f].page;
    var t, t' := s.tables[cur], s'.tables[cur];
    if cur in s.frames[f].owners {
      OwnerMaps(s, f, cur);
    }
    hide Core;
    forall q | 0 <= q < |t| && q != p ensures t'[q].valid == t[q].valid {
      assert At(s.tables, cur, q) == t[q] && At(s'.tables, cur, q) == t'[q];
    }
    if cur in s.frames[f].owners {
      assert !At(s'.tables, cur, p).valid;
    } else if p < |t| {
      assert At(s.tables, cur, p) == t[p] && At(s'.tables, cur, p) == t'[p];
    }
    ValidsDrop(t, t', p);
  }

  // ---------------------------------------------------------------- bits that mean nothing to contents

  /** s' is s with other use, history and limit values. */
  ghost predicate SameButMarks(s: Vm, s': Vm) {
    && s' == s.(tables := s'.tables, wss := s'.wss)
    && SameShape(s, s') && s'.wss.Keys == s.wss.Keys
    && (forall a :: a in s'.wss ==> s'.wss[a] >= MIN_WORKING_SET)
    && (forall a: nat, p: nat :: Has(s.tables, a, p) ==>
          var e, e' := At(s.tables, a, p), At(s'.tables, a, p);
          e' == e.(use := e'.use, history := e'.history))
  }

  /** s' is s with other use bits. */
  ghost predicate SameButUse(s: Vm, s': Vm) {
    && SameButMarks(s, s') && s'.wss == s.wss
    && (forall a: nat, p: nat :: Has(s.tables, a, p) ==> At(s'.tables, a, p).history == At(s.tables, a, p).history)
  }

  /** The state after second chance has looked for a victim among the pages of `a`. */
  ghost function Scanned(s: Vm, a: nat, notMe: int): Vm
    requires a in s.tables
  {
    s.(tables := s.tables[a := Cleared(s.tables[a], |s.tables[a]|, notMe)])
  }

  lemma ScanIsUse(s: Vm, a: nat, notMe: int)
    requires Core(s) && a in s.tables
    ensures SameButUse(s, Scanned(s, a, notMe))
  {
    assert forall b :: b in s.wss ==> s.wss[b] >= MIN_WORKING_SET;
    SameHas(s.tables, Scanned(s, a, notMe).tables);
    hide Core;
  }

  lemma UseSelf(s: Vm)
    requires Core(s)
    ensures SameButUse(s, s)
  {
  }

  lemma MarksShared(s: Vm, s': Vm)
    requires Core(s) && SameButMarks(s, s')
    ensures Tracks(Phys, s'.frames, s'.tables) && Tracks(Disk, s'.slots, s'.tables)
    ensures SharedIsCow(s'.frames, s'.tables) && SharedIsCow(s'.slots, s'.tables)
    ensures OwnersAgree(s'.frames, s'.tables) && SlotOwnersAgree(s'.slots, s'.tables)
  {
    hide CleanIsStored, EntriesOk, ClearIsUnowned, MarkedIsOwned;
    assert forall k, b, q :: Has(s.tables, b, q) ==> Ref(k, At(s'.tables, b, q)) == Ref(k, At(s.tables, b, q));
    assert forall b, q :: Has(s.tables, b, q) <==> Has(s'.tables, b, q);
  }

  lemma UseKeeps(s: Vm, s': Vm)
    requires Core(s) && SameButUse(s, s')
    ensures Core(s') && SameContents(s, s')
    ensures forall f: nat :: Usable(s, f) ==> Usable(s', f)
  {
    hide Core, SameButMarks;
    MarksKeep(s, s');
  }

  lemma MarksKeep(s: Vm, s': Vm)
    requires Core(s) && SameButMarks(s, s')
    ensures Core(s') && SameContents(s, s')
    ensures forall f: nat :: Usable(s, f) ==> Usable(s', f)
  {
    hide Tracks, SharedIsCow, OwnersAgree, SlotOwnersAgree;
    MarksShared(s, s');
    forall b: nat, q: nat | Has(s.tables, b, q)
      ensures Content(s', At(s'.tables, b, q)) == Content(s, At(s.tables, b, q))
      ensures Stored(s', At(s'.tables, b, q)) == Stored(s, At(s.tables, b, q))
    {
    }
  }

  // ---------------------------------------------------------------- steps

  /** What can happen to the paging state. `victim` is whatever frame the replacement
      policy in force returns; in search of one for `a` that is not `notMe` it may scan the
      use bits of `a`. */
  datatype Step =
    | Fault(cur: nat, a: nat, page: nat, victim: nat, now: nat)
    | Read(cur: nat, addr: nat, size: nat)
    | Write(cur: nat, addr: nat, bytes: seq<bv8>, victim: nat)
    | Fork(cur: nat, child: nat)
    | Exit(a: nat)
    | Spawn(a: nat, table: seq<Entry>)
    | Contract(cur: nat, victim: nat)
    | Choose(a: nat, notMe: int, scans: bool)
    | SetLimit(a: nat, limit: int)
    | Slide(a: nat)

  /** The alignment test of `Translate`. */
  predicate Misaligned(addr: nat, size: nat) {
    (size == 4 && addr % 4 != 0) || (size == 2 && addr % 2 != 0)
  }

  lemma MisalignedIs(addr: nat, size: nat)
    requires size == 1 || size == 2 || size == 4
    ensures Misaligned(addr, size) <==> addr % size != 0
  {
  }

  predicate Aligned(addr: nat, size: nat) {
    (size == 1 || size == 2 || size == 4) && !Misaligned(addr, size)
  }

  ghost predicate Enabled(s: Vm, st: Step) {
    match st
    case Fault(cur, a, page, victim, now) => CanPageIn(s, cur, a, page, victim) && now < NEVER
    case Read(cur, addr, size) => Aligned(addr, size) && CanAccess(s, cur, addr / PAGE_SIZE, false, 0)
    case Write(cur, addr, bytes, victim) =>
      Aligned(addr, |bytes|) && CanAccess(s, cur, addr / PAGE_SIZE, true, victim)
    case Fork(cur, child) => cur in s.tables && child !in s.tables
    case Exit(a) => a in s.tables
    case Spawn(a, table) => a !in s.tables && forall p :: 0 <= p < |table| ==> FreshEntry(table[p])
    case Contract(cur, victim) => cur in s.tables && cur in s.wss && TooMany(s, cur) && CanPageOut(s, victim)
    case Choose(a, notMe, scans) => a in s.tables
    case SetLimit(a, limit) => a in s.tables && limit >= MIN_WORKING_SET
    case Slide(a) => a in s.tables
  }

  lemma WithinPage(addr: nat, size: nat)
    requires Aligned(addr, size)
    ensures addr % PAGE_SIZE + size <= PAGE_SIZE
  {
    var page := addr / PAGE_SIZE;
    assert addr == PAGE_SIZE * page + addr % PAGE_SIZE;
    if size == 2 {
      assert addr % PAGE_SIZE == 2 * (addr / 2 - 64 * page);
    } else if size == 4 {
      assert addr % PAGE_SIZE == 4 * (addr / 4 - 32 * page);
    }
  }

  function SlidEntry(e: Entry): Entry {
    e.(history := e.history >> 1)
  }

  /** The table after a refresh: every aging byte slides by one bit. */
  function SlidTable(t: seq<Entry>): (r: seq<Entry>)
    ensures |r| == |t| && forall i :: 0 <= i < |t| ==> r[i] == SlidEntry(t[i])
  {
    seq(|t|, i requires 0 <= i < |t| => SlidEntry(t[i]))
  }

  ghost function Next(s: Vm, st: Step): Vm
    requires Core(s) && Enabled(s, st)
  {
    match st
    case Fault(cur, a, page, victim, now) => PageIn(s, cur, a, page, victim, now)
    case Read(cur, addr, size) => Access(s, cur, addr / PAGE_SIZE, false, 0)
    case Write(cur, addr, bytes, victim) =>
      var p := addr / PAGE_SIZE;
      var s1 := Access(s, cur, p, true, victim);
      AccessKeeps(s, cur, p, true, victim);
      WithinPage(addr, |bytes|);
      StoreKeeps(s1, cur, p, addr % PAGE_SIZE, bytes);
      Store(s1, At(s1.tables, cur, p).frame, addr % PAGE_SIZE, bytes)
    case Fork(cur, child) => ForkSpace(s, cur, child)
    case Exit(a) => ExitSpace(s, a)
    case Spawn(a, table) => AddSpace(s, a, table)
    case Contract(cur, victim) => PageOut(s, victim)
    case Choose(a, notMe, scans) => if scans then Scanned(s, a, notMe) else s
    case SetLimit(a, limit) => s.(wss := s.wss[a := limit])
    case Slide(a) => s.(tables := s.tables[a := SlidTable(s.tables[a])])
  }

  // ---------------------------------------------------------------- the abstract memory

  type AbsMem = map<nat, seq<Option<Page>>>

  ghost function Pages(s: Vm, t: seq<Entry>): seq<Option<Page>> {
    seq(|t|, p requires 0 <= p < |t| => Content(s, t[p]))
  }

  /** Every space's pages, whether they are in memory, in swap or in a file. */
  ghost function Abs(s: Vm): AbsMem {
    map a | a in s.tables :: Pages(s, s.tables[a])
  }

  /** The steps on private arrays of pages. Only a write changes an array, and only
      the writer's, at the bytes written. */
  ghost function AbsNext(m: AbsMem, st: Step, images: map<nat, seq<bv8>>): AbsMem {
    match st
    case Write(cur, addr, bytes, _) =>
      var p, off := addr / PAGE_SIZE, addr % PAGE_SIZE;
      if cur in m && p < |m[cur]| && m[cur][p].Some? && off + |bytes| <= |m[cur][p].value|
      then m[cur := m[cur][p := Some(Splice(m[cur][p].value, off, bytes))]] else m
    case Fork(cur, child) => if cur in m then m[child := m[cur]] else m
    case Exit(a) => m - {a}
    case Spawn(a, table) =>
      m[a := Pages(Vm([], [], [], [], [], [], map[], map[], images), table)]
    case _ => m
  }

  lemma AbsSame(s: Vm, s': Vm)
    requires SameContents(s, s')
    ensures Abs(s') == Abs(s)
  {
    forall a | a in s.tables ensures Pages(s', s'.tables[a]) == Pages(s, s.tables[a]) {
      forall p: nat | p < |s.tables[a]| ensures Content(s', s'.tables[a][p]) == Content(s, s.tables[a][p]) {
        assert At(s.tables, a, p) == s.tables[a][p] && At(s'.tables, a, p) == s'.tables[a][p];
      }
    }
  }

  lemma WriteRefines(s: Vm, cur: nat, addr: nat, bytes: seq<bv8>, victim: nat)
    requires Core(s) && Enabled(s, Write(cur, addr, bytes, victim))
    ensures var st := Write(cur, addr, bytes, victim);
      && Core(Next(s, st))
      && Abs(Next(s, st)) == AbsNext(Abs(s), st, s.images)
      && Next(s, st).images == s.images
      && (forall f: nat :: Usable(s, f) ==> Usable(Next(s, st), f))
  {
    hide Core, Content, Stored, Access, CanAlloc, Sizes;
    var p, off := addr / PAGE_SIZE, addr % PAGE_SIZE;
    var st := Write(cur, addr, bytes, victim);
    var s1 := Access(s, cur, p, true, victim);
    AccessKeeps(s, cur, p, true, victim);
    WithinPage(addr, |bytes|);
    StoreKeeps(s1, cur, p, off, bytes);
    AbsSame(s, s1);
    var s' := Next(s, st);
    var f := At(s1.tables, cur, p).frame;
    StoreAbs(s1, cur, p, off, bytes, s', s1.mem[f]);
    assert Pages(s1, s1.tables[cur])[p] == Some(s1.mem[f]);
    assert forall f: nat :: Usable(s1, f) ==> Usable(s', f);
  }

  lemma StoreAbs(s: Vm, a: nat, p: nat, off: nat, bytes: seq<bv8>, s': Vm, page: Page)
    requires Has(s.tables, a, p) && s'.tables == s.tables
    requires off + |bytes| <= |page|
    requires Content(s, At(s.tables, a, p)) == Some(page)
    requires Content(s', At(s.tables, a, p)) == Some(Splice(page, off, bytes))
    requires forall b: nat, q: nat :: Has(s.tables, b, q) && (b, q) != (a, p) ==>
      Content(s', At(s.tables, b, q)) == Content(s, At(s.tables, b, q))
    ensures Abs(s') == Abs(s)[a := Abs(s)[a][p := Some(Splice(page, off, bytes))]]
  {
    hide Content;
    forall b | b in s.tables
      ensures Pages(s', s.tables[b]) ==
        if b == a then Pages(s, s.tables[a])[p := Some(Splice(page, off, bytes))] else Pages(s, s.tables[b])
    {
      forall q: nat | q < |s.tables[b]| && (b, q) != (a, p)
        ensures Content(s', s.tables[b][q]) == Content(s, s.tables[b][q])
      {
        assert At(s.tables, b, q) == s.tables[b][q];
      }
    }
  }

  lemma ForkRefines(s: Vm, cur: nat, child: nat)
    requires Core(s) && cur in s.tables && child !in s.tables
    ensures Abs(ForkSpace(s, cur, child)) == Abs(s)[child := Abs(s)[cur]]
  {
    hide Core, Content, ForkSpace, Usable;
    ForkKeeps(s, cur, child);
    var s' := ForkSpace(s, cur, child);
    forall a | a in s.tables ensures Pages(s', s'.tables[a]) == Pages(s, s.tables[a]) {
      forall p: nat | p < |s.tables[a]| ensures Content(s', s'.tables[a][p]) == Content(s, s.tables[a][p]) {
        assert Has(s.tables, a, p);
        assert SameContentsOf(s, a, p, s', a, p);
      }
    }
    forall p: nat | p < |s.tables[cur]| ensures Content(s', s'.tables[child][p]) == Content(s, s.tables[cur][p]) {
      assert SameContentsOf(s, cur, p, s', child, p);
    }
    assert Pages(s', s'.tables[child]) == Pages(s, s.tables[cur]);
  }

  lemma ExitRefines(s: Vm, a: nat)
    requires Core(s) && a in s.tables
    ensures Abs(ExitSpace(s, a)) == Abs(s) - {a}
  {
    hide Core, Content, ExitSpace, Usable;
    ExitKeeps(s, a);
    var s' := ExitSpace(s, a);
    forall b | b in s'.tables ensures Pages(s', s'.tables[b]) == Pages(s, s.tables[b]) {
      forall p: nat | p < |s.tables[b]| ensures Content(s', s'.tables[b][p]) == Content(s, s.tables[b][p]) {
        assert Has(s.tables, b, p);
        assert SameContentsOf(s, b, p, s', b, p);
      }
    }
  }

  /** What a new space sees: zeros where the entry says so, the bytes of the executable at
      the entry's offset, and nothing in a page without either. */
  lemma SpawnSees(s: Vm, a: nat, table: seq<Entry>, p: nat)
    requires Inv(s) && Enabled(s, Spawn(a, table)) && p < |table|
    ensures var m, e := Abs(Next(s, Spawn(a, table))), table[p];
      && a in m && |m[a]| == |table|
      && (e.zero ==> m[a][p].Some? && |m[a][p].value| == 128 && forall i :: 0 <= i < 128 ==> m[a][p].value[i] == 0)
      && (!e.zero && e.file.Image? && e.file.id in s.images && e.offset + 128 <= |s.images[e.file.id]| ==>
            m[a][p] == Some(s.images[e.file.id][e.offset..e.offset + 128]))
      && (!e.zero && e.file.NoFile? ==> m[a][p] == None)
  {
    hide Core, EnoughUsable;
  }

  lemma SpawnRefines(s: Vm, a: nat, table: seq<Entry>)
    requires Core(s) && Enabled(s, Spawn(a, table))
    ensures var s' := AddSpace(s, a, table);
      && Core(s') && Abs(s') == AbsNext(Abs(s), Spawn(a, table), s.images)
      && (forall f: nat :: Usable(s, f) ==> Usable(s', f))
  {
    hide Core, Stored;
    AddKeeps(s, a, table);
    var s' := AddSpace(s, a, table);
    var blank := Vm([], [], [], [], [], [], map[], map[], s.images);
    forall b | b in s.tables ensures Pages(s', s'.tables[b]) == Pages(s, s.tables[b]) {
      forall p: nat | p < |s.tables[b]| ensures Content(s', s.tables[b][p]) == Content(s, s.tables[b][p]) {
        SameStored(s, s', s.tables[b][p]);
      }
    }
    forall p: nat | p < |table| ensures Content(s', table[p]) == Content(blank, table[p]) {
      assert FreshEntry(table[p]);
      FreshStored(s', blank, table[p]);
    }
    assert Pages(s', table) == Pages(blank, table);
  }

  lemma FreshStored(s: Vm, s': Vm, e: Entry)
    requires s'.images == s.images && FreshEntry(e)
    ensures Stored(s', e) == Stored(s, e)
  {
  }

  lemma CoreSizes(s: Vm)
    requires Core(s)
    ensures Sizes(s)
  {
  }

  lemma LimitMarks(s: Vm, a: nat, limit: int)
    requires Core(s) && a in s.tables && limit >= MIN_WORKING_SET
    ensures SameButMarks(s, s.(wss := s.wss[a := limit]))
  {
  }

  lemma SlideMarks(s: Vm, a: nat)
    requires Core(s) && a in s.tables
    ensures SameButMarks(s, s.(tables := s.tables[a := SlidTable(s.tables[a])]))
  {
    CoreSizes(s);
    hide Core, Stored, SlidEntry;
    var s' := s.(tables := s.tables[a := SlidTable(s.tables[a])]);
    forall b: nat, p: nat | Has(s.tables, b, p)
      ensures var e, e' := At(s.tables, b, p), At(s'.tables, b, p); e' == e.(use := e'.use, history := e'.history)
    {
      SlidOnlyHistory(At(s.tables, b, p));
    }
  }

  lemma SlidOnlyHistory(e: Entry)
    ensures SlidEntry(e) == e.(history := SlidEntry(e).history)
  {
  }

  // ---------------------------------------------------------------- the theorems

  /** Every step keeps the ownership invariant, and does to the abstract memory what
      the same step does to private arrays of pages. */
  lemma StepRefines(s: Vm, st: Step)
    requires Inv(s) && Enabled(s, st)
    ensures Inv(Next(s, st))
    ensures Abs(Next(s, st)) == AbsNext(Abs(s), st, s.images)
    ensures Next(s, st).images == s.images
  {
    hide Core, Usable, PageIn, Access, ForkSpace, ExitSpace, PageOut, EnoughUsable, SameButUse, SameButMarks, Abs;
    var s' := Next(s, st);
    match st {
      case Fault(cur, a, page, victim, now) =>
        PageInKeeps(s, cur, a, page, victim, now);
        AbsSame(s, s');
      case Read(cur, addr, size) =>
        AccessKeeps(s, cur, addr / PAGE_SIZE, false, 0);
        AbsSame(s, s');
      case Write(cur, addr, bytes, victim) =>
        WriteRefines(s, cur, addr, bytes, victim);
      case Fork(cur, child) =>
        ForkKeeps(s, cur, child);
        ForkRefines(s, cur, child);
        AbsKeys(s);
      case Exit(a) =>
        ExitKeeps(s, a);
        ExitRefines(s, a);
      case Spawn(a, table) =>
        SpawnRefines(s, a, table);
      case Contract(cur, victim) =>
        ContractKeeps(s, cur, victim);
        AbsSame(s, s');
      case Choose(a, notMe, scans) =>
        ScanIsUse(s, a, notMe);
        UseSelf(s);
        UseKeeps(s, s');
        AbsSame(s, s');
      case SetLimit(a, limit) =>
        LimitMarks(s, a, limit);
        MarksKeep(s, s');
        AbsSame(s, s');
      case Slide(a) =>
        SlideMarks(s, a);
        MarksKeep(s, s');
        AbsSame(s, s');
    }
    if !st.Contract? {
      CoreSizes(s);
      CoreSizes(s');
      UsableGrows(s, s');
    }
  }

  lemma AbsKeys(s: Vm)
    ensures Abs(s).Keys == s.tables.Keys
  {
  }

  /** Each step of the run can be taken in the state the earlier steps lead to. */
  ghost predicate Runs(s: Vm, steps: seq<Step>)
    requires Inv(s)
    decreases |steps|
  {
    steps != [] ==>
      Enabled(s, steps[0]) && (StepRefines(s, steps[0]); Runs(Next(s, steps[0]), steps[1..]))
  }

  ghost function Final(s: Vm, steps: seq<Step>): Vm
    requires Inv(s) && Runs(s, steps)
    decreases |steps|
  {
    if steps == [] then s
    else
      StepRefines(s, steps[0]);
      Final(Next(s, steps[0]), steps[1..])
  }

  ghost function AbsFinal(m: AbsMem, steps: seq<Step>, images: map<nat, seq<bv8>>): AbsMem
    decreases |steps|
  {
    if steps == [] then m else AbsFinal(AbsNext(m, steps[0], images), steps[1..], images)
  }

  /** These steps, taken one after the other, lead from s to s'. */
  ghost predicate Leads(s: Vm, steps: seq<Step>, s': Vm) {
    Inv(s) && Runs(s, steps) && Final(s, steps) == s'
  }

  lemma LeadsNone(s: Vm)
    requires Inv(s)
    ensures Leads(s, [], s)
  {
  }

  lemma LeadsOne(s: Vm, st: Step)
    requires Inv(s) && Enabled(s, st)
    ensures Leads(s, [st], Next(s, st)) && Inv(Next(s, st))
  {
    hide Core, EnoughUsable, Enabled, Next;
    StepRefines(s, st);
    LeadsNone(Next(s, st));
    assert [st][1..] == [];
  }

  lemma {:induction false} LeadsOn(s: Vm, xs: seq<Step>, mid: Vm, ys: seq<Step>, s': Vm)
    requires Leads(s, xs, mid) && Leads(mid, ys, s')
    ensures Leads(s, xs + ys, s')
    decreases |xs|
  {
    hide Core, EnoughUsable, Enabled, Next;
    if xs == [] {
      assert xs + ys == ys;
    } else {
      StepRefines(s, xs[0]);
      LeadsOn(Next(s, xs[0]), xs[1..], mid, ys, s');
      assert (xs + ys)[1..] == xs[1..] + ys;
    }
  }

  /** Paging is transparent and isolating over whole runs, under any replacement
      policy: what every space sees at the end is what private arrays of pages would
      hold, and the ownership invariant still stands. */
  lemma {:induction false} PagingIsTransparent(s: Vm, steps: seq<Step>)
    requires Inv(s) && Runs(s, steps)
    ensures Inv(Final(s, steps))
    ensures Abs(Final(s, steps)) == AbsFinal(Abs(s), steps, s.images)
    decreases |steps|
  {
    hide Core, Abs, AbsNext, Enabled, Next;
    if steps != [] {
      StepRefines(s, steps[0]);
      PagingIsTransparent(Next(s, steps[0]), steps[1..]);
    }
  }

  /** A read sees the abstract memory. */
  lemma ReadSees(s: Vm, cur: nat, addr: nat, size: nat)
    requires Inv(s) && Enabled(s, Read(cur, addr, size))
    ensures var p, off := addr / PAGE_SIZE, addr % PAGE_SIZE;
      var f := s.tables[cur][p].frame;
      && f < |s.mem| && off + size <= |s.mem[f]|
      && cur in Abs(s) && p < |Abs(s)[cur]| && Abs(s)[cur][p].Some?
      && off + size <= |Abs(s)[cur][p].value|
      && s.mem[f][off..off + size] == Abs(s)[cur][p].value[off..off + size]
  {
    WithinPage(addr, size);
    var p := addr / PAGE_SIZE;
    assert EntryOk(At(s.tables, cur, p));
    assert Pages(s, s.tables[cur])[p] == Content(s, s.tables[cur][p]);
  }

  /** The state at start-up: everything free, no address space. */
  ghost predicate Boot(s: Vm) {
    && Sizes(s) && s.tables == map[]
    && (forall f :: 0 <= f < NUM_PHYS_PAGES ==> !s.bits[f] && s.frames[f].owners == [])
    && (forall k :: 0 <= k < NUM_SWAP_PAGES ==> !s.swapBits[k] && s.slots[k].owners == [])
  }

  lemma BootInv(s: Vm)
    requires Boot(s)
    ensures Inv(s)
  {
    assert {0, 1, 2, 3} <= UsableSet(s);
    SubsetSize({0, 1, 2, 3}, UsableSet(s));
  }

  // ---------------------------------------------------------------- progress

  lemma TwoInSet(x: set<nat>, avoid: int) returns (f: nat)
    requires |x| >= 2
    ensures f in x && f != avoid
  {
    var a :| a in x;
    assert |x - {a}| >= 1;
    var b :| b in x - {a};
    f := if a == avoid then b else a;
  }

  /** When no frame is free for a space, somebody owns a frame other than the one
      that must not be taken: the search for a victim ends, in every reachable state. */
  lemma VictimExists(s: Vm, cur: nat, notMe: int) returns (f: nat)
    requires Inv(s) && cur in s.tables && cur in s.wss && !FindsFree(s, cur)
    ensures f != notMe && Mapped(s, f)
    ensures TooMany(s, cur) ==> cur in s.frames[f].owners
  {
    if TooMany(s, cur) {
      var t := s.tables[cur];
      forall p, q | 0 <= p < q < |t| && t[p].valid && t[q].valid ensures t[p].frame != t[q].frame {
        assert At(s.tables, cur, p) == t[p] && At(s.tables, cur, q) == t[q];
      }
      FramesCounted(t);
      f := TwoInSet(FramesOf(t), notMe);
      var p: nat :| p < |t| && t[p].valid && t[p].frame == f;
      assert At(s.tables, cur, p) == t[p];
      assert Owns(s.frames, f, cur);
    } else {
      f := TwoInSet(UsableSet(s), notMe);
      assert s.bits[f];
    }
    forall a | a in s.frames[f].owners ensures a in s.tables && s.frames[f].page < |s.tables[a]| {
      assert Owns(s.frames, f, a);
    }
  }

  /** A mapped frame can be paged out unless it needs a swap slot and there is none. */
  lemma OutUnlessFull(s: Vm, f: nat)
    requires Core(s) && Mapped(s, f)
    ensures CanPageOut(s, f) <==> !(NeedsSlot(s, f) && FirstClear(s.swapBits, 0) == |s.swapBits|)
  {
    var a := s.frames[f].owners[0];
    assert Owns(s.frames, f, a);
    if Rep(s, f).file == Swap {
      assert Owns(s.slots, Slot(Rep(s, f)), a);
    }
  }

  /** A fault on a page that has something to be loaded from is served, whichever
      owned frame the policy gives up, exactly when the page-out does not run out of
      swap slots. The retried access then finds the page. A read goes through; so does a
      write, unless the page has come in shared, and the copy needs a page-out that runs
      out of swap slots. */
  lemma FaultProgress(s: Vm, cur: nat, page: nat, victim: nat, now: nat)
    requires Inv(s) && cur in s.tables && page < |s.tables[cur]| && now < NEVER
    requires !s.tables[cur][page].valid && Stored(s, s.tables[cur][page]).Some?
    requires cur in s.wss && (FindsFree(s, cur) || Mapped(s, victim))
    ensures CanPageIn(s, cur, cur, page, victim) <==>
      FindsFree(s, cur) || !(NeedsSlot(s, victim) && FirstClear(s.swapBits, 0) == |s.swapBits|)
    ensures CanPageIn(s, cur, cur, page, victim) ==>
      RetrySucceeds(PageIn(s, cur, cur, page, victim, now), cur, page)
  {
    if !FindsFree(s, cur) {
      OutUnlessFull(s, victim);
    }
    if CanPageIn(s, cur, cur, page, victim) {
      StepRefines(s, Fault(cur, cur, page, victim, now));
      PageInKeeps(s, cur, cur, page, victim, now);
      hide Core, PageIn, EnoughUsable;
      RetryOf(PageIn(s, cur, cur, page, victim, now), cur, page);
    }
  }

  /** The page is mapped, a read of it goes through, and a write does for any second
      victim that the policy may return, exactly when that one can be paged out; there is
      such a victim whenever one is needed. */
  ghost predicate RetrySucceeds(s: Vm, cur: nat, page: nat) {
    && Inv(s) && Has(s.tables, cur, page) && cur in s.wss && At(s.tables, cur, page).valid
    && CanAccess(s, cur, page, false, 0)
    && (forall v: nat :: Mapped(s, v) && v != At(s.tables, cur, page).frame ==>
          (CanAccess(s, cur, page, true, v) <==>
             || !At(s.tables, cur, page).cow || FindsFree(s, cur)
             || !(NeedsSlot(s, v) && FirstClear(s.swapBits, 0) == |s.swapBits|)))
    && (FindsFree(s, cur) || exists v: nat :: Mapped(s, v) && v != At(s.tables, cur, page).frame)
  }

  lemma RetryOf(s: Vm, cur: nat, page: nat)
    requires Inv(s) && Has(s.tables, cur, page) && At(s.tables, cur, page).valid
    ensures RetrySucceeds(s, cur, page)
  {
    assert cur in s.wss;
    if !FindsFree(s, cur) {
      var v := VictimExists(s, cur, s.tables[cur][page].frame);
    }
    hide EnoughUsable, FindsFree, NeedsSlot;
    forall v: nat | Mapped(s, v)
      ensures CanPageOut(s, v) <==> !(NeedsSlot(s, v) && FirstClear(s.swapBits, 0) == |s.swapBits|)
    {
      OutUnlessFull(s, v);
    }
    hide Core, CanPageOut;
  }

  // ---------------------------------------------------------------- the frames that contraction loses

  /** Nobody else's frame changes hands while a frame is got. */
  lemma AllocOthers(s: Vm, cur: nat, notMe: int, victim: nat, g: nat)
    requires Core(s) && CanAlloc(s, cur, notMe, victim)
    requires g < NUM_PHYS_PAGES && g != AllocFrame(s, cur, victim)
    ensures Alloc(s, cur, notMe, victim).bits[g] == s.bits[g]
    ensures Alloc(s, cur, notMe, victim).frames[g] == s.frames[g]
  {
  }

  lemma FaultMarked(s: Vm, cur: nat, a: nat, p: nat, victim: nat, now: nat)
    requires Core(s) && CanPageIn(s, cur, a, p, victim) && now < NEVER && MarkedIsOwned(s.frames, s.bits)
    ensures var s' := PageIn(s, cur, a, p, victim, now); MarkedIsOwned(s'.frames, s'.bits)
  {
    InReady(s, cur, a, p, victim, now);
    var s1, d := Alloc(s, cur, -1, victim), AllocFrame(s, cur, victim);
    LoadKeeps(s1, a, p, d, now);
    var s' := PageIn(s, cur, a, p, victim, now);
    forall g | 0 <= g < NUM_PHYS_PAGES && s'.bits[g] ensures s'.frames[g].owners != [] {
      if g != d {
        AllocOthers(s, cur, -1, victim, g);
      }
    }
  }

  lemma AccessMarked(s: Vm, cur: nat, p: nat, writing: bool, victim: nat)
    requires Core(s) && CanAccess(s, cur, p, writing, victim) && MarkedIsOwned(s.frames, s.bits)
    ensures var s' := Access(s, cur, p, writing, victim); MarkedIsOwned(s'.frames, s'.bits)
  {
    var e := s.tables[cur][p];
    if writing && e.cow {
      CopyReady(s, cur, p, victim);
      var s1, d := Alloc(s, cur, e.frame, victim), AllocFrame(s, cur, victim);
      CopyKeeps(s1, cur, p, d);
      var s' := Copied(s1, cur, p, d);
      hide Copied, Core;
      forall g | 0 <= g < |s'.frames| && s'.bits[g] ensures s'.frames[g].owners != [] {
        CoreSizes(s);
        if g != d && g != At(s1.tables, cur, p).frame {
          AllocOthers(s, cur, e.frame, victim, g);
        }
      }
    }
  }

  lemma ShareMarkedOnce(s: Vm, cur: nat, child: nat)
    requires CanShare(s, cur, child) && MarkedIsOwned(s.frames, s.bits)
    ensures var s' := SharePage(s, cur, child); MarkedIsOwned(s'.frames, s'.bits)
  {
  }

  lemma {:induction false} ShareMarked(s: Vm, cur: nat, child: nat, n: nat)
    requires Core(s) && cur in s.tables && child in s.tables && cur != child
    requires s.tables[child] == [] && n <= |s.tables[cur]| && MarkedIsOwned(s.frames, s.bits)
    ensures var s' := SharePages(s, cur, child, n); MarkedIsOwned(s'.frames, s'.bits)
    decreases n
  {
    hide Core, CanShare, SharePage, MarkedIsOwned;
    if n > 0 {
      ShareMarked(s, cur, child, n - 1);
      ShareStep(SharePages(s, cur, child, n - 1), cur, child);
      ShareMarkedOnce(SharePages(s, cur, child, n - 1), cur, child);
    }
  }

  lemma DropMarked(s: Vm, a: nat, i: nat)
    requires Core(s) && a in s.tables && i < |s.tables[a]| && MarkedIsOwned(s.frames, s.bits)
    ensures CanDrop(s, a, i) && MarkedIsOwned(DropPage(s, a, i).frames, DropPage(s, a, i).bits)
  {
    CanDropAny(s, a, i);
    DroppedIs(s, a, i);
    hide Core;
    assert DropPage(s, a, i).frames == Dropped(s, a, i).frames;
    assert DropPage(s, a, i).bits == Dropped(s, a, i).bits;
  }

  lemma {:induction false} DropsMarked(s: Vm, a: nat, n: nat)
    requires Core(s) && a in s.tables && n <= |s.tables[a]| && MarkedIsOwned(s.frames, s.bits)
    ensures MarkedIsOwned(DropPages(s, a, n).frames, DropPages(s, a, n).bits)
    decreases n
  {
    hide Core, CanDrop, DropPage, MarkedIsOwned;
    if n > 0 {
      DropsMarked(s, a, n - 1);
      DropPagesCore(s, a, n - 1);
      DropMarked(DropPages(s, a, n - 1), a, n - 1);
    }
  }

  /** Page-out leaves the bit of the frame set, so a frame that is marked need not have
      an owner. That happens in contraction and nowhere else: a step from a state in
      which every marked frame is owned leads to such a state again exactly if it is not
      a contraction. */
  lemma LostByContraction(s: Vm, st: Step)
    requires Inv(s) && Enabled(s, st) && MarkedIsOwned(s.frames, s.bits)
    ensures MarkedIsOwned(Next(s, st).frames, Next(s, st).bits) <==> !st.Contract?
  {
    hide Core, PageIn, Access, SharePages, DropPages;
    match st {
      case Fault(cur, a, page, victim, now) => FaultMarked(s, cur, a, page, victim, now);
      case Read(cur, addr, size) => AccessMarked(s, cur, addr / PAGE_SIZE, false, 0);
      case Write(cur, addr, bytes, victim) => AccessMarked(s, cur, addr / PAGE_SIZE, true, victim);
      case Fork(cur, child) =>
        AddKeeps(s, child, []);
        ShareMarked(AddSpace(s, child, []), cur, child, |s.tables[cur]|);
      case Exit(a) => DropsMarked(s, a, |s.tables[a]|);
      case Spawn(a, table) =>
      case Contract(cur, victim) => OutLost(s, victim);
      case Choose(a, notMe, scans) =>
      case SetLimit(a, limit) =>
      case Slide(a) =>
    }
  }

  lemma OutLost(s: Vm, f: nat)
    requires Core(s) && CanPageOut(s, f)
    ensures f < |PageOut(s, f).frames| && f < |PageOut(s, f).bits|
    ensures PageOut(s, f).bits[f] && PageOut(s, f).frames[f].owners == []
    ensures !MarkedIsOwned(PageOut(s, f).frames, PageOut(s, f).bits)
  {
  }
}
