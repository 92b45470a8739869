// Fork and exit as the kernel runs them: the loop of CopyFrom over a table that is
// copied beforehand, and the loop of ~AddrSpace over a table that is deleted afterwards.

module PagingSpaces {
  import opened Paging
  import opened PagingCow
  import opened PagingFork
  import opened PagingRun
  import opened PagingTheorem
  import opened PagingKernel

  // ---------------------------------------------------------------- fork

  /** A copied entry, before the sharing loop has seen it (`CopyPageTable`). */
  function CopiedEntry(e: Entry): Entry {
    e.(use := false, history := 0)
  }

  /** The state with the child's table cut off behind its first `i` pages: what the
      sharing loop has dealt with so far. */
  ghost function Cut(s: Vm, child: nat, i: nat): Vm
    requires child in s.tables && i <= |s.tables[child]|
  {
    s.(tables := s.tables[child := s.tables[child][..i]])
  }

  ghost predicate CanShareOne(s: Vm, cur: nat, child: nat, i: nat) {
    && cur in s.tables && child in s.tables && cur != child
    && i < |s.tables[child]| == |s.tables[cur]|
    && Core(Cut(s, child, i)) && CanShare(Cut(s, child, i), cur, child)
    && s.tables[child][i] == CopiedEntry(s.tables[cur][i])
  }

  /** The child is not an owner yet, and the recorded page is the right one: the
      assertions of `add_frame_owner` hold. */
  lemma NotYetOwner(s: Vm, cur: nat, child: nat, i: nat)
    requires CanShareOne(s, cur, child, i)
    ensures var e := s.tables[cur][i];
      && (e.valid ==> e.frame < |s.frames| && child !in s.frames[e.frame].owners && s.frames[e.frame].page == i)
      && (e.file == Swap ==> Slot(e) < |s.slots| && child !in s.slots[Slot(e)].owners && s.slots[Slot(e)].page == i)
  {
    hide Core, CanShare;
    ShareIs(Cut(s, child, i), cur, child);
  }

  method ShareOne(k: Kernel, cur: nat, child: nat, i: nat)
    requires CanShareOne(k.S(), cur, child, i)
    modifies k`frames, k`slots, k`tables
    ensures cur in k.tables && child in k.tables
    ensures |k.tables[child]| == |k.tables[cur]| == |old(k.tables)[cur]|
    ensures Cut(k.S(), child, i + 1) == SharePage(Cut(old(k.S()), child, i), cur, child)
    ensures forall j :: i < j < |k.tables[cur]| ==>
      k.tables[cur][j] == old(k.tables)[cur][j] && k.tables[child][j] == old(k.tables)[child][j]
  {
    NotYetOwner(k.S(), cur, child, i);
    hide Core, CanShare;
    var e := k.tables[child][i];
    var c, p := e, k.tables[cur][i];
    if e.file == Swap {
      k.slots := k.slots[Slot(e) := Frame(k.slots[Slot(e)].owners + [child], i)];
      c, p := c.(cow := true), p.(cow := true);
    }
    if e.valid {
      var added := k.AddFrameOwner(e.frame, child, i);
      c, p := c.(cow := true), p.(cow := true);
    }
    k.tables := k.tables[child := k.tables[child][i := c]];
    k.tables := k.tables[cur := k.tables[cur][i := p]];
    CutNext(old(k.tables), k.tables, cur, child, i, p, c);
  }

  lemma CutNext(t: Tables, t': Tables, cur: nat, child: nat, i: nat, p: Entry, c: Entry)
    requires cur in t && child in t && cur != child && i < |t[child]| == |t[cur]|
    requires t' == t[child := t[child][i := c]][cur := t[cur][i := p]]
    ensures t'[child := t'[child][..i + 1]] ==
      t[child := t[child][..i]][cur := t[cur][i := p]][child := t[child][..i] + [c]]
  {
    assert t'[child][..i + 1] == t[child][..i] + [c];
  }

  /** `AddrSpace::CopyFrom`: everybody keeps their memory and the child gets a copy of
      the parent's. */
  method CopyFrom(k: Kernel, cur: nat, child: nat)
    requires k.Valid() && cur in k.tables && child !in k.tables
    modifies k`frames, k`slots, k`tables, k`wss
    ensures k.Valid()
    ensures k.S() == ForkSpace(old(k.S()), cur, child) && Leads(old(k.S()), [Fork(cur, child)], k.S())
    ensures Abs(k.S()) == Abs(old(k.S()))[child := Abs(old(k.S()))[cur]]
    ensures k.wss == old(k.wss)[child := 4]
  {
    hide Inv, Core, SharePage, SharePages, AddSpace, CanShare, ForkSpace, Abs, Leads;
    ghost var s := k.S();
    ghost var s1 := AddSpace(s, child, []);
    ForkStarts(s, cur, child);
    var copy := CopyPageTable(k.tables[cur]);
    k.wss := k.wss[child := MIN_WORKING_SET];
    k.tables := k.tables[child := copy];
    var n := |copy|;
    var i := 0;
    assert Cut(k.S(), child, 0) == s1;
    while i < n
      invariant 0 <= i <= n
      invariant cur in k.tables && child in k.tables && |k.tables[child]| == |k.tables[cur]| == n
      invariant k.wss == s.wss[child := MIN_WORKING_SET]
      invariant Cut(k.S(), child, i) == SharePages(s1, cur, child, i)
      invariant forall j :: i <= j < n ==>
        k.tables[cur][j] == s.tables[cur][j] && k.tables[child][j] == copy[j]
    {
      SharesNext(s1, cur, child, i);
      ShareOne(k, cur, child, i);
      i := i + 1;
    }
    CutAll(k.S(), child);
    ForkEnds(s, cur, child);
  }

  lemma ForkStarts(s: Vm, cur: nat, child: nat)
    requires Inv(s) && cur in s.tables && child !in s.tables
    ensures var s1 := AddSpace(s, child, []);
      && s1 == s.(tables := s.tables[child := []], wss := s.wss[child := MIN_WORKING_SET])
      && Core(s1) && SharePages(s1, cur, child, 0) == s1
  {
    InvSelf(s);
    hide Core;
    AddKeeps(s, child, []);
  }

  lemma SharesNext(s: Vm, cur: nat, child: nat, i: nat)
    requires Core(s) && cur in s.tables && child in s.tables && cur != child
    requires s.tables[child] == [] && i < |s.tables[cur]|
    ensures CanShare(SharePages(s, cur, child, i), cur, child)
    ensures SharePages(s, cur, child, i + 1) == SharePage(SharePages(s, cur, child, i), cur, child)
  {
    hide Core, SharePage, CanShare;
    ShareStep(SharePages(s, cur, child, i), cur, child);
  }

  method CopyPageTable(t: seq<Entry>) returns (r: seq<Entry>)
    ensures |r| == |t| && forall i :: 0 <= i < |t| ==> r[i] == CopiedEntry(t[i])
  {
    r := [];
    while |r| < |t|
      invariant |r| <= |t| && forall i :: 0 <= i < |r| ==> r[i] == CopiedEntry(t[i])
    {
      r := r + [t[|r|].(use := false, history := 0)];
    }
  }

  lemma CutAll(s: Vm, child: nat)
    requires child in s.tables
    ensures Cut(s, child, |s.tables[child]|) == s
  {
    assert s.tables[child][..|s.tables[child]|] == s.tables[child];
  }

  lemma ForkEnds(s: Vm, cur: nat, child: nat)
    requires Inv(s) && cur in s.tables && child !in s.tables
    ensures Core(AddSpace(s, child, []))
    ensures SharePages(AddSpace(s, child, []), cur, child, |s.tables[cur]|) == ForkSpace(s, cur, child)
    ensures Inv(ForkSpace(s, cur, child))
    ensures Abs(ForkSpace(s, cur, child)) == Abs(s)[child := Abs(s)[cur]]
    ensures Leads(s, [Fork(cur, child)], ForkSpace(s, cur, child))
  {
    hide Core, SharePages, Usable, EnoughUsable, Abs;
    AddKeeps(s, child, []);
    LeadsOne(s, Fork(cur, child));
    ForkRefines(s, cur, child);
  }

  // ---------------------------------------------------------------- exit

  /** The state with the first `i` entries of the dying space marked dead: what the
      destructor will not look at again. */
  ghost function Killed(s: Vm, a: nat, i: nat): Vm
    requires a in s.tables && i <= |s.tables[a]|
  {
    s.(tables := s.tables[a := KilledTable(s.tables[a], i)])
  }

  ghost function KilledTable(t: seq<Entry>, i: nat): (r: seq<Entry>)
    requires i <= |t|
    ensures |r| == |t|
    ensures forall j :: 0 <= j < |t| ==> r[j] == if j < i then Dead(t[j]) else t[j]
  {
    seq(|t|, j requires 0 <= j < |t| => if j < i then Dead(t[j]) else t[j])
  }

  method DropOne(k: Kernel, a: nat, i: nat)
    requires a in k.tables && i < |k.tables[a]| && CanDrop(Killed(k.S(), a, i), a, i)
    modifies k`frames, k`bits, k`slots, k`swapBits, k`tables
    ensures a in k.tables && |k.tables[a]| == |old(k.tables)[a]|
    ensures Killed(k.S(), a, i + 1) == DropPage(Killed(old(k.S()), a, i), a, i)
  {
    ghost var v := Killed(k.S(), a, i);
    var e := k.tables[a][i];
    if e.valid {
      k.ReleasePage(e.frame, a);
    }
    ghost var s1 := k.S();
    ghost var v1 := if e.valid then DropFrame(v, a, e.frame) else v;
    assert v1 == Killed(s1, a, i);
    var f := k.tables[a][0].frame;
    OwnersHave(old(k.S()), a, i, f);
    if |k.frames[f].owners| == 1 {
      var o, p := k.frames[f].owners[0], k.frames[f].page;
      assert o in k.frames[f].owners;
      k.tables := k.tables[o := k.tables[o][p := k.tables[o][p].(cow := false)]];
    }
    ghost var s2 := k.S();
    UnshareKilled(s1, a, i, f);
    if e.file == Swap {
      k.ReleaseSlot(e, a);
    }
    hide CanDrop;
    KillNext(k.S(), a, i);
  }

  lemma OwnersHave(s: Vm, a: nat, i: nat, f: nat)
    requires a in s.tables && i < |s.tables[a]| && CanDrop(Killed(s, a, i), a, i) && f < |s.frames|
    ensures var e := s.tables[a][i];
      var s1 := if e.valid then DropFrame(s, a, e.frame) else s;
      forall b :: b in s1.frames[f].owners ==> b in s1.tables && s1.frames[f].page < |s1.tables[b]|
  {
    var v := Killed(s, a, i);
    var e := s.tables[a][i];
    var s1 := if e.valid then DropFrame(s, a, e.frame) else s;
    forall b | b in s1.frames[f].owners ensures b in s1.tables && s1.frames[f].page < |s1.tables[b]| {
      assert b in v.frames[f].owners;
      assert b in v.tables && v.frames[f].page < |v.tables[b]|;
    }
  }

  /** Unsharing does not mind the dead entries. */
  lemma UnshareKilled(s: Vm, a: nat, i: nat, f: nat)
    requires a in s.tables && i <= |s.tables[a]| && f < |s.frames|
    requires forall b :: b in s.frames[f].owners ==> b in s.tables && s.frames[f].page < |s.tables[b]|
    ensures a in Unshare(s, f).tables && i <= |Unshare(s, f).tables[a]|
    ensures Killed(Unshare(s, f), a, i) == Unshare(Killed(s, a, i), f)
  {
    if |s.frames[f].owners| == 1 {
      var o, p := s.frames[f].owners[0], s.frames[f].page;
      assert o in s.frames[f].owners;
      if o == a {
        UnshareOwn(s.tables[a], i, p);
      }
      hide KilledTable;
    }
  }

  lemma UnshareOwn(t: seq<Entry>, i: nat, p: nat)
    requires i <= |t| && p < |t|
    ensures KilledTable(t[p := t[p].(cow := false)], i) == KilledTable(t, i)[p := KilledTable(t, i)[p].(cow := false)]
  {
  }

  lemma KillNext(s: Vm, a: nat, i: nat)
    requires a in s.tables && i < |s.tables[a]|
    ensures Killed(s, a, i + 1) ==
      Killed(s, a, i).(tables := Put(Killed(s, a, i).tables, a, i, Dead(Killed(s, a, i).tables[a][i])))
  {
    assert KilledTable(s.tables[a], i + 1) == KilledTable(s.tables[a], i)[i := Dead(s.tables[a][i])];
  }

  /** `AddrSpace::~AddrSpace`: every other space keeps its memory. */
  method Destroy(k: Kernel, a: nat)
    requires k.Valid() && a in k.tables
    modifies k`frames, k`bits, k`slots, k`swapBits, k`tables, k`wss
    ensures k.Valid()
    ensures k.S() == ExitSpace(old(k.S()), a) && Leads(old(k.S()), [Exit(a)], k.S())
    ensures Abs(k.S()) == Abs(old(k.S())) - {a}
  {
    hide Inv, Core, DropPage, CanDrop, Abs, KilledTable, ExitSpace, Leads;
    ghost var s := k.S();
    var n := |k.tables[a]|;
    InvSelf(s);
    KilledNone(s, a);
    var i := 0;
    while i < n
      invariant 0 <= i <= n && a in k.tables && |k.tables[a]| == n
      invariant Killed(k.S(), a, i) == DropPages(s, a, i)
    {
      DropPagesCore(s, a, i + 1);
      DropOne(k, a, i);
      i := i + 1;
    }
    ExitEnds(s, a);
    ghost var v := k.S();
    assert Killed(v, a, n).tables - {a} == v.tables - {a};
    k.tables := k.tables - {a};
    k.wss := k.wss - {a};
  }

  lemma KilledNone(s: Vm, a: nat)
    requires a in s.tables
    ensures Killed(s, a, 0) == s
  {
    assert KilledTable(s.tables[a], 0) == s.tables[a];
  }

  lemma ExitEnds(s: Vm, a: nat)
    requires Inv(s) && a in s.tables
    ensures ExitSpace(s, a) == RemoveSpace(DropPages(s, a, |s.tables[a]|), a)
    ensures Inv(ExitSpace(s, a)) && Abs(ExitSpace(s, a)) == Abs(s) - {a}
    ensures Leads(s, [Exit(a)], ExitSpace(s, a))
  {
    LeadsOne(s, Exit(a));
    hide Core, DropPages, Usable, EnoughUsable, Abs;
    ExitKeeps(s, a);
    ExitRefines(s, a);
    StepInv(s, ExitSpace(s, a));
  }
}
