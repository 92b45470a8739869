// Which copy-on-write bits the destructor of an address space clears. It looks at the
// frame of page 0 at every page, so the last other owner of any other frame keeps its bit.

module PagingExit {
  import opened Sequences
  import opened FreeBits
  import opened Paging
  import opened PagingCow
  import opened PagingFork
  import opened PagingRun
  import opened PagingTheorem

  /** b owns the frame alone, at page q. */
  ghost predicate Sole(s: Vm, f: nat, b: nat, q: nat) {
    f < |s.frames| && s.frames[f].owners == [b] && s.frames[f].page == q
  }

  /** b owns the frame at page q, and nobody but a owns it besides. */
  ghost predicate Remains(s: Vm, a: nat, f: nat, b: nat, q: nat) {
    Owns(s.frames, f, b) && s.frames[f].page == q && forall c :: Owns(s.frames, f, c) ==> c == a || c == b
  }

  /** What leaves the owners other than a, and all frames that a does not own, alone. */
  ghost predicate OnlyLeaves(s: Vm, a: nat, s': Vm) {
    && |s'.frames| == |s.frames|
    && (forall g :: 0 <= g < |s.frames| ==> s'.frames[g].page == s.frames[g].page)
    && (forall g, c :: c != a ==> (Owns(s'.frames, g, c) <==> Owns(s.frames, g, c)))
    && (forall g :: 0 <= g < |s.frames| && a !in s.frames[g].owners ==> s'.frames[g] == s.frames[g])
  }

  ghost predicate ClearsSole(s: Vm, a: nat, f: nat, s': Vm) {
    forall b: nat, q: nat :: b != a && Has(s.tables, b, q) ==>
      && Has(s'.tables, b, q)
      && At(s'.tables, b, q) == if Sole(s', f, b, q) then At(s.tables, b, q).(cow := false) else At(s.tables, b, q)
  }

  lemma DropLeaves(s: Vm, a: nat, i: nat, mid: Vm, f: nat, s': Vm)
    requires IsDrop(s, a, i, mid) && IsUnshare(mid, f, s')
    ensures OnlyLeaves(s, a, s') && ClearsSole(s, a, f, s')
    ensures Has(s.tables, a, 0) ==> Has(s'.tables, a, 0) && At(s'.tables, a, 0).frame == At(s.tables, a, 0).frame
  {
    hide Core, Released;
    forall b: nat, q: nat | b != a && Has(s.tables, b, q)
      ensures Has(s'.tables, b, q)
      ensures At(s'.tables, b, q) == if Sole(s', f, b, q) then At(s.tables, b, q).(cow := false) else At(s.tables, b, q)
    {
      if |mid.frames[f].owners| == 1 {
        assert mid.frames[f].owners == [mid.frames[f].owners[0]];
      }
    }
  }

  lemma DropPageLeaves(s: Vm, a: nat, i: nat)
    requires Core(s) && a in s.tables && i < |s.tables[a]|
    ensures CanDrop(s, a, i)
    ensures var s', f := DropPage(s, a, i), s.tables[a][0].frame;
      && OnlyLeaves(s, a, s') && ClearsSole(s, a, f, s')
      && Has(s'.tables, a, 0) && At(s'.tables, a, 0).frame == f
  {
    CanDropAny(s, a, i);
    DroppedIs(s, a, i);
    var mid := Dropped(s, a, i);
    var f := s.tables[a][0].frame;
    hide Core, IsUnshare, Unshare, OnlyLeaves, ClearsSole;
    assert Core(mid) by { DropKeeps(s, a, i, mid); }
    DropPageIs(s, a, i);
    UnshareIs(mid, f);
    DropLeaves(s, a, i, mid, f, DropPage(s, a, i));
  }

  lemma LeavesAgain(s: Vm, a: nat, s1: Vm, s2: Vm)
    requires OnlyLeaves(s, a, s1) && OnlyLeaves(s1, a, s2)
    ensures OnlyLeaves(s, a, s2)
  {
  }

  /** The bit that was cleared for a sole owner stays cleared, because that owner stays
      the sole one. */
  lemma ClearsAgain(s: Vm, a: nat, f: nat, s1: Vm, s2: Vm)
    requires SameShape(s, s1) && OnlyLeaves(s1, a, s2) && ClearsSole(s, a, f, s1) && ClearsSole(s1, a, f, s2)
    ensures ClearsSole(s, a, f, s2)
  {
    forall b: nat, q: nat | b != a && Has(s.tables, b, q)
      ensures Has(s2.tables, b, q)
      ensures At(s2.tables, b, q) == if Sole(s2, f, b, q) then At(s.tables, b, q).(cow := false) else At(s.tables, b, q)
    {
      assert Has(s1.tables, b, q);
      if Sole(s1, f, b, q) {
        assert s2.frames[f] == s1.frames[f];
      }
    }
  }

  lemma {:induction false} DropPagesLeave(s: Vm, a: nat, n: nat)
    requires Core(s) && a in s.tables && 0 < n <= |s.tables[a]|
    ensures var s', f := DropPages(s, a, n), s.tables[a][0].frame;
      && OnlyLeaves(s, a, s') && ClearsSole(s, a, f, s')
      && Has(s'.tables, a, 0) && At(s'.tables, a, 0).frame == f
    decreases n
  {
    hide Core, CanDrop, DropPage, OnlyLeaves, ClearsSole;
    var s1, f := DropPages(s, a, n - 1), s.tables[a][0].frame;
    DropPagesCore(s, a, n - 1);
    DropPagesCore(s, a, n);
    DropPageLeaves(s1, a, n - 1);
    if n > 1 {
      DropPagesLeave(s, a, n - 1);
      LeavesAgain(s, a, s1, DropPages(s, a, n));
      ClearsAgain(s, a, f, s1, DropPages(s, a, n));
    }
  }

  lemma SoleIsRemains(s: Vm, a: nat, s': Vm, f: nat, b: nat, q: nat)
    requires OnlyLeaves(s, a, s') && b != a && !Owns(s'.frames, f, a)
    requires f < |s'.frames| ==> Distinct(s'.frames[f].owners)
    ensures Sole(s', f, b, q) <==> Remains(s, a, f, b, q)
  {
    if Remains(s, a, f, b, q) {
      assert Owns(s'.frames, f, b);
      var xs := s'.frames[f].owners;
      forall i | 0 <= i < |xs| ensures xs[i] == b {
        assert Owns(s'.frames, f, xs[i]);
      }
      AllSame(xs, b);
    }
    if Sole(s', f, b, q) {
      assert b in s'.frames[f].owners && Owns(s'.frames, f, b);
      forall c | Owns(s.frames, f, c) ensures c == a || c == b {
        assert c != a ==> Owns(s'.frames, f, c);
      }
    }
  }

  /** No frame is left to the space that has gone. */
  lemma GoneOwnsNothing(s: Vm, a: nat, g: nat)
    requires Core(s) && a !in s.tables
    ensures !Owns(s.frames, g, a) && (g < |s.frames| ==> Distinct(s.frames[g].owners))
  {
  }

  /** What exit does to the entries of the other spaces: it clears the copy-on-write bit of
      the one owner that remains of the frame that page 0 names, and changes nothing else.
      A space without pages changes nothing. */
  lemma ExitUnshares(s: Vm, a: nat, b: nat, q: nat)
    requires Core(s) && a in s.tables && b != a && Has(s.tables, b, q)
    ensures var s' := ExitSpace(s, a);
      && Has(s'.tables, b, q)
      && At(s'.tables, b, q) ==
         (if s.tables[a] != [] && Remains(s, a, s.tables[a][0].frame, b, q)
          then At(s.tables, b, q).(cow := false) else At(s.tables, b, q))
    ensures forall f: nat :: Sole(ExitSpace(s, a), f, b, q) <==> Remains(s, a, f, b, q)
  {
    hide Core, DropPages, Remains, Sole, OnlyLeaves;
    var n, s' := |s.tables[a]|, ExitSpace(s, a);
    var s1 := DropPages(s, a, n);
    ExitKeeps(s, a);
    if n > 0 {
      DropPagesLeave(s, a, n);
    } else {
      NoPages(s, a);
    }
    SameSole(s1, s', b, q);
    forall f: nat ensures Sole(s', f, b, q) <==> Remains(s, a, f, b, q) {
      GoneOwnsNothing(s', a, f);
      SoleIsRemains(s, a, s1, f, b, q);
    }
  }

  lemma SameSole(s: Vm, s': Vm, b: nat, q: nat)
    requires s'.frames == s.frames
    ensures forall f: nat :: Sole(s', f, b, q) <==> Sole(s, f, b, q)
  {
  }

  lemma NoPages(s: Vm, a: nat)
    ensures DropPages(s, a, 0) == s && OnlyLeaves(s, a, s)
  {
  }

  /** The last other owner of a frame that a gives up is unshared if and only if the frame
      is the one that page 0 of a names. */
  lemma LastOwnerUnshared(s: Vm, a: nat, g: nat, b: nat)
    requires Core(s) && a in s.tables && b != a && Owns(s.frames, g, a) && Remains(s, a, g, b, s.frames[g].page)
    ensures var s', q := ExitSpace(s, a), s.frames[g].page;
      && Sole(s', g, b, q) && Has(s'.tables, b, q) && s.tables[a] != []
      && (!At(s'.tables, b, q).cow <==> g == s.tables[a][0].frame)
  {
    var q := s.frames[g].page;
    assert Owns(s.frames, g, b) && Has(s.tables, a, q) && Has(s.tables, b, q);
    assert At(s.tables, b, q).cow by {
      TwoOwners(s.frames[g].owners, a, b);
    }
    if Remains(s, a, s.tables[a][0].frame, b, q) {
      assert Owns(s.frames, s.tables[a][0].frame, b);
    }
    hide Core, ExitSpace;
    ExitUnshares(s, a, b, q);
  }

  lemma TwoOwners(xs: seq<nat>, a: nat, b: nat)
    requires a in xs && b in xs && a != b
    ensures |xs| >= 2
  {
    var i :| 0 <= i < |xs| && xs[i] == a;
    var j :| 0 <= j < |xs| && xs[j] == b;
  }

  // ---------------------------------------------------------------- an example

  /** A page of zeros, in this frame if it is mapped. */
  function ZeroEntry(frame: nat, valid: bool, cow: bool): Entry {
    Entry(frame, valid, false, false, false, NoFile, 0, true, cow, 0, 0)
  }

  /** A memory in which these frames are taken, and nothing is swapped out. */
  function Memory(taken: seq<Frame>, tables: Tables, wss: map<nat, int>): Vm
    requires |taken| <= NUM_PHYS_PAGES
  {
    Vm(seq(NUM_PHYS_PAGES, _ => Zeros()),
       seq(NUM_PHYS_PAGES, f requires 0 <= f => if f < |taken| then taken[f] else Frame([], 0)),
       seq(NUM_PHYS_PAGES, f => f < |taken|),
       seq(NUM_SWAP_PAGES, _ => Zeros()),
       seq(NUM_SWAP_PAGES, _ => Frame([], 0)),
       seq(NUM_SWAP_PAGES, _ => false),
       tables, wss, map[])
  }

  /** The stages of a run: start-up, a space with two pages of zeros, both of them in
      memory one after the other, and a fork. */
  function Stage(n: nat): Vm {
    var limit := map[0 := MIN_WORKING_SET];
    if n == 0 then Memory([], map[], map[])
    else if n == 1 then Memory([], map[0 := [ZeroEntry(0, false, false), ZeroEntry(0, false, false)]], limit)
    else if n == 2 then Memory([Frame([0], 0)], map[0 := [ZeroEntry(0, true, false), ZeroEntry(0, false, false)]], limit)
    else if n == 3 then
      Memory([Frame([0], 0), Frame([0], 1)], map[0 := [ZeroEntry(0, true, false), ZeroEntry(1, true, false)]], limit)
    else
      var t := [ZeroEntry(0, true, true), ZeroEntry(1, true, true)];
      Memory([Frame([0, 1], 0), Frame([0, 1], 1)], map[0 := t, 1 := t], limit[1 := MIN_WORKING_SET])
  }

  function StageStep(n: nat): Step {
    if n == 0 then Spawn(0, [ZeroEntry(0, false, false), ZeroEntry(0, false, false)])
    else if n == 1 then Fault(0, 0, 0, 0, 0)
    else if n == 2 then Fault(0, 0, 1, 0, 0)
    else Step.Fork(0, 1)
  }

  lemma StageSpawn()
    ensures Enabled(Stage(0), StageStep(0)) && AddSpace(Stage(0), 0, StageStep(0).table) == Stage(1)
  {
  }

  lemma FreeAt(taken: seq<Frame>, tables: Tables, wss: map<nat, int>, k: nat)
    requires |taken| < NUM_PHYS_PAGES && k <= |taken|
    ensures FirstClear(Memory(taken, tables, wss).bits, k) == |taken|
    decreases |taken| - k
  {
    var bits := Memory(taken, tables, wss).bits;
    if k < |taken| {
      assert bits[k];
      FreeAt(taken, tables, wss, k + 1);
    } else {
      assert !bits[k];
    }
  }

  /** A page fault of space 0 on a page of zeros takes the next frame. */
  lemma StageFault(taken: seq<Frame>, t: seq<Entry>, p: nat, f: nat)
    requires f == |taken| < 4 && p < |t| && Valids(t) <= 4 && t[p] == ZeroEntry(0, false, false)
    ensures var s := Memory(taken, map[0 := t], map[0 := MIN_WORKING_SET]);
      && CanPageIn(s, 0, 0, p, 0)
      && var s1 := Alloc(s, 0, -1, 0);
      && AllocFrame(s, 0, 0) == f && CanLoad(s1, 0, p, f)
      && Load(s1, 0, p, f, 0) ==
         Memory(taken + [Frame([0], p)], map[0 := t[p := ZeroEntry(f, true, false)]], map[0 := MIN_WORKING_SET])
  {
    var s := Memory(taken, map[0 := t], map[0 := MIN_WORKING_SET]);
    FreeAt(taken, map[0 := t], map[0 := MIN_WORKING_SET], 0);
    var s1 := Alloc(s, 0, -1, 0);
    var s' := Load(s1, 0, p, f, 0);
    var goal := Memory(taken + [Frame([0], p)], map[0 := t[p := ZeroEntry(f, true, false)]], map[0 := MIN_WORKING_SET]);
    assert s'.mem == goal.mem;
    assert s'.frames == goal.frames;
    assert s'.bits == goal.bits;
    EditOne(Put(s.tables, 0, p, t[p]), 0, p, MapTo(f, 0));
    assert t[p].(cow := false) == t[p];
    assert s'.tables[0] == goal.tables[0];
  }

  lemma EditOne(t: Tables, a: nat, p: nat, ed: Edit)
    requires a in t && p < |t[a]|
    ensures EditAll(t, [a], p, ed) == Put(t, a, p, Apply(ed, t[a][p]))
  {
    assert [a][..0] == [];
  }

  /** In the middle of the fork: the child is the second owner of frame 0. */
  function HalfShared(): Vm {
    Memory([Frame([0, 1], 0), Frame([0], 1)],
      map[0 := [ZeroEntry(0, true, true), ZeroEntry(1, true, false)], 1 := [ZeroEntry(0, true, true)]],
      map[0 := MIN_WORKING_SET, 1 := MIN_WORKING_SET])
  }

  lemma ShareFirst()
    ensures CanShare(AddSpace(Stage(3), 1, []), 0, 1) && SharePage(AddSpace(Stage(3), 1, []), 0, 1) == HalfShared()
  {
    var s0 := AddSpace(Stage(3), 1, []);
    var s1 := SharePage(s0, 0, 1);
    assert s0.frames[0] == Frame([0], 0);
    assert s1.frames[0] == Frame([0, 1], 0);
    assert s1.frames == HalfShared().frames;
    assert s1.tables[0] == HalfShared().tables[0];
    assert s1.tables[1] == HalfShared().tables[1];
    assert s1.tables == HalfShared().tables;
    assert s1.wss == HalfShared().wss;
  }

  lemma ShareSecond()
    ensures CanShare(HalfShared(), 0, 1) && SharePage(HalfShared(), 0, 1) == Stage(4)
  {
    var s1 := HalfShared();
    var s2 := SharePage(s1, 0, 1);
    assert s1.frames[1] == Frame([0], 1);
    assert s2.frames[1] == Frame([0, 1], 1);
    assert s2.frames == Stage(4).frames;
    assert s2.tables[0] == Stage(4).tables[0];
    assert s2.tables[1] == Stage(4).tables[1];
    assert s2.tables == Stage(4).tables;
    assert s2.wss == Stage(4).wss;
  }

  lemma BootStage()
    ensures Boot(Stage(0))
  {
  }

  lemma StageNext(n: nat)
    requires n < 4 && Inv(Stage(n))
    ensures Enabled(Stage(n), StageStep(n)) && Next(Stage(n), StageStep(n)) == Stage(n + 1)
  {
    hide Core, EnoughUsable;
    if n == 0 {
      StageSpawn();
    } else if n == 1 {
      StageFirst();
    } else if n == 2 {
      StageSecond();
    } else {
      StageFork();
    }
  }

  lemma StageFirst()
    requires Core(Stage(1))
    ensures CanPageIn(Stage(1), 0, 0, 0, 0) && PageIn(Stage(1), 0, 0, 0, 0, 0) == Stage(2)
  {
    hide Core, Load, Alloc, CanLoad, Memory;
    var t := [ZeroEntry(0, false, false), ZeroEntry(0, false, false)];
    StageFault([], t, 0, 0);
    assert t[0 := ZeroEntry(0, true, false)] == [ZeroEntry(0, true, false), ZeroEntry(0, false, false)];
    assert [] + [Frame([0], 0)] == [Frame([0], 0)];
  }

  lemma StageSecond()
    requires Core(Stage(2))
    ensures CanPageIn(Stage(2), 0, 0, 1, 0) && PageIn(Stage(2), 0, 0, 1, 0, 0) == Stage(3)
  {
    hide Core, Load, Alloc, CanLoad, Memory;
    var t := [ZeroEntry(0, true, false), ZeroEntry(0, false, false)];
    StageFault([Frame([0], 0)], t, 1, 1);
    assert t[1 := ZeroEntry(1, true, false)] == [ZeroEntry(0, true, false), ZeroEntry(1, true, false)];
    assert [Frame([0], 0)] + [Frame([0], 1)] == [Frame([0], 0), Frame([0], 1)];
  }

  lemma StageFork()
    requires Core(Stage(3))
    ensures 0 in Stage(3).tables && 1 !in Stage(3).tables && ForkSpace(Stage(3), 0, 1) == Stage(4)
  {
    var s0 := AddSpace(Stage(3), 1, []);
    AddKeeps(Stage(3), 1, []);
    ShareFirst();
    ShareSecond();
    assert |s0.tables[0]| == 2 && s0.tables[1] == [];
    hide Core, SharePage, Memory, CanShare;
    assert SharePages(s0, 0, 1, 0) == s0;
    assert SharePages(s0, 0, 1, 1) == SharePage(s0, 0, 1);
    assert SharePages(s0, 0, 1, 2) == SharePage(HalfShared(), 0, 1);
  }

  function StepsFrom(n: nat): seq<Step>
    requires n <= 4
    decreases 4 - n
  {
    if n == 4 then [] else [StageStep(n)] + StepsFrom(n + 1)
  }

  /** The last stage is where that run leads. */
  lemma {:induction false} StageRuns(n: nat)
    requires n <= 4 && Inv(Stage(n))
    ensures Runs(Stage(n), StepsFrom(n)) && Final(Stage(n), StepsFrom(n)) == Stage(4)
    decreases 4 - n
  {
    hide Inv, Next, Enabled, Stage, StageStep;
    if n < 4 {
      StageNext(n);
      StepRefines(Stage(n), StageStep(n));
      StageRuns(n + 1);
      assert StepsFrom(n)[1..] == StepsFrom(n + 1);
    }
  }

  lemma LastStage()
    ensures var s := Stage(4);
      && |s.frames| > 1 && s.frames[0].page == 0 && s.frames[1].page == 1
      && Owns(s.frames, 0, 1) && Owns(s.frames, 1, 1)
      && Remains(s, 1, 0, 0, 0) && Remains(s, 1, 1, 0, 1)
      && 1 in s.tables && s.tables[1] != [] && s.tables[1][0].frame == 0
  {
    assert Stage(4).frames[0] == Frame([0, 1], 0) && Stage(4).frames[1] == Frame([0, 1], 1);
  }

  lemma StageReached()
    ensures Boot(Stage(0)) && Inv(Stage(0)) && Inv(Stage(4))
    ensures Runs(Stage(0), StepsFrom(0)) && Final(Stage(0), StepsFrom(0)) == Stage(4)
  {
    BootStage();
    hide Inv, Boot, Stage, StepsFrom;
    BootInv(Stage(0));
    StageRuns(0);
    PagingIsTransparent(Stage(0), StepsFrom(0));
  }

  /** After a fork and the exit of the child, in a run from the start, the parent has
      frame 1 to itself, and yet its page 1 is still copy-on-write; page 0 is not. */
  lemma BitStays()
    ensures Boot(Stage(0)) && Inv(Stage(0)) && Inv(Stage(4))
    ensures Runs(Stage(0), StepsFrom(0)) && Final(Stage(0), StepsFrom(0)) == Stage(4)
    ensures 1 in Stage(4).tables
    ensures var s' := ExitSpace(Stage(4), 1);
      && Sole(s', 0, 0, 0) && Has(s'.tables, 0, 0) && !At(s'.tables, 0, 0).cow
      && Sole(s', 1, 0, 1) && Has(s'.tables, 0, 1) && At(s'.tables, 0, 1).cow
  {
    StageReached();
    LastStage();
    hide Core, EnoughUsable, Boot, Stage, StepsFrom, Remains, Owns, Sole, ExitSpace;
    LastOwnerUnshared(Stage(4), 1, 0, 0);
    LastOwnerUnshared(Stage(4), 1, 1, 0);
  }
}
