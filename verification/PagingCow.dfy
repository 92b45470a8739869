// Translation, copy-on-write and stores.

module PagingCow {
  import opened Sequences
  import opened Options
  import opened Paging

  // ---------------------------------------------------------------- owner lists

  lemma AllSame(xs: seq<nat>, x: nat)
    requires Distinct(xs) && xs != [] && forall y :: y in xs ==> y == x
    ensures |xs| == 1
  {
    var n := |xs| - 1;
    assert xs[0] in xs && xs[n] in xs;
  }

  lemma OtherRemains(xs: seq<nat>, x: nat)
    requires Distinct(xs) && x in xs && |xs| != 1
    ensures Without(xs, x) != []
  {
    var y := if xs[0] == x then xs[1] else xs[0];
    assert y in Without(xs, x);
  }

  lemma {:induction false} WithoutNoDup(xs: seq<nat>, x: nat)
    requires Distinct(xs)
    ensures Distinct(Without(xs, x))
    decreases |xs|
  {
    if xs != [] {
      var n := |xs| - 1;
      WithoutNoDup(xs[..n], x);
      assert forall y :: y in Without(xs[..n], x) ==> y in xs[..n];
      var w := Without(xs[..n], x);
      forall i | 0 <= i < |w| ensures w[i] != xs[n] {
        assert w[i] in xs[..n];
      }
    }
  }

  /** `Released` removes exactly the one owner, whichever branch it takes. */
  lemma ReleasedOwners(f: Frame, a: nat)
    requires Distinct(f.owners) && a in f.owners
    ensures Distinct(Released(f, a).owners) && Released(f, a).page == f.page
    ensures forall b :: b in Released(f, a).owners <==> b in f.owners && b != a
    ensures Released(f, a).owners == [] <==> |f.owners| == 1
  {
    WithoutNoDup(f.owners, a);
    if |f.owners| == 1 {
      assert f.owners == [a];
    } else {
      OtherRemains(f.owners, a);
    }
  }

  /** The owner list behind an entry that refers to a frame or a slot. */
  lemma RefOwned(k: Kind, s: Vm, a: nat, p: nat)
    requires Core(s) && Has(s.tables, a, p) && Ref(k, At(s.tables, a, p)) >= 0
    ensures var fr := if k == Phys then s.frames else s.slots;
      var f := Ref(k, At(s.tables, a, p));
      && Owns(fr, f, a) && fr[f].page == p && Distinct(fr[f].owners)
      && (forall b :: b in fr[f].owners ==> Has(s.tables, b, p) && Ref(k, At(s.tables, b, p)) == f)
    ensures |s.frames| == |s.bits| == |s.mem| && |s.slots| == |s.swapBits|
  {
    var fr := if k == Phys then s.frames else s.slots;
    var f := Ref(k, At(s.tables, a, p));
    assert Owns(fr, f, a);
    forall b | b in fr[f].owners ensures Has(s.tables, b, p) && Ref(k, At(s.tables, b, p)) == f {
      assert Owns(fr, f, b);
    }
  }

  // ---------------------------------------------------------------- the copy

  ghost predicate CopyOk(s: Vm, a: nat, p: nat, dest: nat) {
    && Core(s) && CanCopy(s, a, p, dest)
    && s.frames[dest].owners == [] && s.bits[dest]
    && s.tables[a][p].valid
  }

  /** The state once the faulting write has its copy and the dirty bit is set. */
  ghost function Copied(s: Vm, a: nat, p: nat, dest: nat): Vm
    requires CopyOk(s, a, p, dest)
  {
    CopyHas(s, a, p, dest);
    Mark(Copy(s, a, p, dest), a, p, true)
  }

  lemma CopyHas(s: Vm, a: nat, p: nat, dest: nat)
    requires CopyOk(s, a, p, dest)
    ensures a in Copy(s, a, p, dest).tables && p < |Copy(s, a, p, dest).tables[a]|
  {
  }

  // The lemmas below speak of any state s' that differs from s as these three
  // predicates say, so that the copy itself is unfolded only once.

  /** The old frame keeps its other owners; the new one has `a` alone. */
  ghost predicate FramesMoved(s: Vm, a: nat, p: nat, dest: nat, s': Vm)
    requires CopyOk(s, a, p, dest)
  {
    var src := At(s.tables, a, p).frame;
    var rest := Released(s.frames[src], a);
    && Owns(s.frames, src, a) && s.frames[src].page == p
    && s'.frames == s.frames[dest := Frame([a], p)][src := rest]
    && s'.bits == s.bits[src := s.bits[src] && rest.owners != []]
    && s'.mem == s.mem[dest := s.mem[src]]
    && s'.swap == s.swap && s'.images == s.images && s'.wss == s.wss
    && rest.page == p && Distinct(rest.owners)
    && (forall b :: b in rest.owners <==> b in s.frames[src].owners && b != a)
  }

  ghost predicate SlotLeft(s: Vm, a: nat, p: nat, dest: nat, s': Vm)
    requires CopyOk(s, a, p, dest)
  {
    var e := At(s.tables, a, p);
    if e.file == Swap then
      var rest := Released(s.slots[Slot(e)], a);
      && Owns(s.slots, Slot(e), a) && s.slots[Slot(e)].page == p
      && s'.slots == s.slots[Slot(e) := rest]
      && s'.swapBits == s.swapBits[Slot(e) := s.swapBits[Slot(e)] && rest.owners != []]
      && rest.page == p && Distinct(rest.owners)
      && (forall b :: b in rest.owners <==> b in s.slots[Slot(e)].owners && b != a)
    else s'.slots == s.slots && s'.swapBits == s.swapBits
  }

  /** The only owner left on the old frame stops sharing it. */
  ghost predicate Left(s: Vm, a: nat, p: nat, b: nat, q: nat)
    requires Has(s.tables, a, p) && At(s.tables, a, p).frame < |s.frames|
  {
    var rest := Released(s.frames[At(s.tables, a, p).frame], a).owners;
    |rest| == 1 && b == rest[0] && q == p
  }

  ghost predicate EntryMoved(s: Vm, a: nat, p: nat, dest: nat, s': Vm)
    requires CopyOk(s, a, p, dest)
  {
    && s'.tables.Keys == s.tables.Keys
    && (forall b, q :: Has(s'.tables, b, q) <==> Has(s.tables, b, q))
    && (forall b, q :: Has(s.tables, b, q) ==>
          var e := At(s.tables, b, q);
          At(s'.tables, b, q) ==
          if b == a && q == p then
            e.(file := if e.file == Swap then NoFile else e.file, cow := false, frame := dest,
               use := true, dirty := true, time := 0, history := 0x80)
          else if Left(s, a, p, b, q) then e.(cow := false)
          else e)
  }

  ghost predicate IsCopy(s: Vm, a: nat, p: nat, dest: nat, s': Vm) {
    && CopyOk(s, a, p, dest)
    && FramesMoved(s, a, p, dest, s')
    && SlotLeft(s, a, p, dest, s')
    && EntryMoved(s, a, p, dest, s')
  }

  lemma CopiedFrames(s: Vm, a: nat, p: nat, dest: nat)
    requires CopyOk(s, a, p, dest)
    ensures FramesMoved(s, a, p, dest, Copied(s, a, p, dest))
  {
    RefOwned(Phys, s, a, p);
    hide Core;
    ReleasedOwners(s.frames[At(s.tables, a, p).frame], a);
    assert Owned(s.frames[dest], a, p) == Frame([a], p);
  }

  lemma CopiedSlots(s: Vm, a: nat, p: nat, dest: nat)
    requires CopyOk(s, a, p, dest)
    ensures SlotLeft(s, a, p, dest, Copied(s, a, p, dest))
  {
    var e := At(s.tables, a, p);
    if e.file == Swap {
      RefOwned(Disk, s, a, p);
      ReleasedOwners(s.slots[Slot(e)], a);
    }
    hide Core;
  }

  function Moved(e: Entry, dest: nat): Entry {
    e.(file := if e.file == Swap then NoFile else e.file, cow := false, frame := dest, valid := true,
       use := true, dirty := true, time := 0, history := 0x80)
  }

  lemma PutTwice(t: Tables, a: nat, p: nat, e: Entry, e': Entry)
    requires Has(t, a, p)
    ensures Put(Put(t, a, p, e), a, p, e') == Put(t, a, p, e')
  {
    assert t[a][p := e][p := e'] == t[a][p := e'];
  }

  /** The two table writes of the copy, last owner first. */
  lemma CopiedTables(s: Vm, a: nat, p: nat, dest: nat, rest: Frame)
    requires CopyOk(s, a, p, dest)
    requires rest == Released(s.frames[At(s.tables, a, p).frame], a)
    requires a !in rest.owners && forall b :: b in rest.owners ==> Has(s.tables, b, rest.page)
    ensures Copied(s, a, p, dest).tables ==
      Put(if |rest.owners| == 1
          then Put(s.tables, rest.owners[0], rest.page, At(s.tables, rest.owners[0], rest.page).(cow := false))
          else s.tables, a, p, Moved(At(s.tables, a, p), dest))
  {
    hide Core;
    var src := At(s.tables, a, p).frame;
    var s1 := s.(frames := s.frames[dest := Owned(s.frames[dest], a, p)], mem := s.mem[dest := s.mem[src]]);
    var s2 := DropSlot(DropFrame(s1, a, src), a, At(s.tables, a, p));
    assert s2.frames[src] == rest && s2.tables == s.tables;
    assert |rest.owners| == 1 ==> rest.owners[0] in rest.owners;
    var s3 := Unshare(s2, src);
    PutTwice(s3.tables, a, p, At(Copy(s, a, p, dest).tables, a, p), Moved(At(s.tables, a, p), dest));
  }

  lemma CopiedEntry(s: Vm, a: nat, p: nat, dest: nat)
    requires CopyOk(s, a, p, dest)
    ensures EntryMoved(s, a, p, dest, Copied(s, a, p, dest))
  {
    hide Core, Copied, Released;
    RefOwned(Phys, s, a, p);
    var src := At(s.tables, a, p).frame;
    ReleasedOwners(s.frames[src], a);
    var rest := Released(s.frames[src], a);
    CopiedTables(s, a, p, dest, rest);
    assert |rest.owners| == 1 ==> rest.owners[0] in rest.owners;
  }

  lemma CopyTracksPhys(s: Vm, a: nat, p: nat, dest: nat, s': Vm)
    requires IsCopy(s, a, p, dest, s')
    ensures Tracks(Phys, s'.frames, s'.tables)
  {
    hide CleanIsStored, SharedIsCow, EntriesOk, OwnersAgree, SlotOwnersAgree, MarkedIsOwned, ClearIsUnowned;
    forall g: int, b: nat | Owns(s'.frames, g, b)
      ensures Has(s'.tables, b, s'.frames[g].page) && Ref(Phys, At(s'.tables, b, s'.frames[g].page)) == g
    {
      if g != dest {
        assert Owns(s.frames, g, b);
      }
    }
    forall b: nat, q: nat | Has(s'.tables, b, q) && Ref(Phys, At(s'.tables, b, q)) >= 0
      ensures Owns(s'.frames, Ref(Phys, At(s'.tables, b, q)), b) && s'.frames[Ref(Phys, At(s'.tables, b, q))].page == q
    {
      if (b, q) != (a, p) {
        assert Owns(s.frames, Ref(Phys, At(s.tables, b, q)), b);
      }
    }
    assert Once(s'.frames);
  }

  lemma CopyTracksDisk(s: Vm, a: nat, p: nat, dest: nat, s': Vm)
    requires IsCopy(s, a, p, dest, s')
    ensures Tracks(Disk, s'.slots, s'.tables)
  {
    hide CleanIsStored, SharedIsCow, EntriesOk, OwnersAgree, SlotOwnersAgree, MarkedIsOwned, ClearIsUnowned;
    forall g: int, b: nat | Owns(s'.slots, g, b)
      ensures Has(s'.tables, b, s'.slots[g].page) && Ref(Disk, At(s'.tables, b, s'.slots[g].page)) == g
    {
      assert Owns(s.slots, g, b);
    }
    forall b: nat, q: nat | Has(s'.tables, b, q) && Ref(Disk, At(s'.tables, b, q)) >= 0
      ensures Owns(s'.slots, Ref(Disk, At(s'.tables, b, q)), b) && s'.slots[Ref(Disk, At(s'.tables, b, q))].page == q
    {
      assert Owns(s.slots, Ref(Disk, At(s.tables, b, q)), b);
    }
    assert Once(s'.slots);
  }

  /** What an owner of a frame other than the copy's was before. */
  lemma CopyOwner(s: Vm, a: nat, p: nat, dest: nat, s': Vm, g: int, b: nat)
    requires IsCopy(s, a, p, dest, s') && Owns(s'.frames, g, b) && g != dest
    ensures Owns(s.frames, g, b) && s'.frames[g].page == s.frames[g].page
    ensures Has(s'.tables, b, s.frames[g].page) && Has(s.tables, b, s.frames[g].page)
    ensures |s'.frames[g].owners| >= 2 ==>
      |s.frames[g].owners| >= 2 && At(s'.tables, b, s.frames[g].page) == At(s.tables, b, s.frames[g].page)
    ensures SameSource(At(s'.tables, b, s.frames[g].page), At(s.tables, b, s.frames[g].page))
  {
    hide CleanIsStored, EntriesOk, MarkedIsOwned, ClearIsUnowned, SlotOwnersAgree, OwnersAgree, SharedIsCow;
    assert Owns(s.frames, g, b);
  }

  lemma CopyShared(s: Vm, a: nat, p: nat, dest: nat, s': Vm)
    requires IsCopy(s, a, p, dest, s')
    ensures SharedIsCow(s'.frames, s'.tables)
    ensures OwnersAgree(s'.frames, s'.tables)
  {
    forall g: int, b: nat | Owns(s'.frames, g, b) && g != dest
      ensures Owns(s.frames, g, b) && s'.frames[g].page == s.frames[g].page
      ensures Has(s'.tables, b, s.frames[g].page) && Has(s.tables, b, s.frames[g].page)
      ensures |s'.frames[g].owners| >= 2 ==>
        |s.frames[g].owners| >= 2 && At(s'.tables, b, s.frames[g].page) == At(s.tables, b, s.frames[g].page)
      ensures SameSource(At(s'.tables, b, s.frames[g].page), At(s.tables, b, s.frames[g].page))
    {
      CopyOwner(s, a, p, dest, s', g, b);
    }
    hide CleanIsStored, EntriesOk, MarkedIsOwned, ClearIsUnowned, SlotOwnersAgree, Tracks;
  }

  lemma CopySharedSlots(s: Vm, a: nat, p: nat, dest: nat, s': Vm)
    requires IsCopy(s, a, p, dest, s')
    ensures SharedIsCow(s'.slots, s'.tables)
    ensures SlotOwnersAgree(s'.slots, s'.tables)
  {
    forall g: int, b: nat | Owns(s'.slots, g, b)
      ensures Owns(s.slots, g, b) && s'.slots[g].page == s.slots[g].page
      ensures Has(s'.tables, b, s.slots[g].page)
      ensures SameFrame(At(s'.tables, b, s.slots[g].page), At(s.tables, b, s.slots[g].page))
      ensures |s'.slots[g].owners| >= 2 ==>
        |s.slots[g].owners| >= 2 && At(s'.tables, b, s.slots[g].page).cow == At(s.tables, b, s.slots[g].page).cow
    {
      assert Owns(s.slots, g, b);
      if Left(s, a, p, b, s.slots[g].page) {
        OneLeft(s, a, p, dest, s', g, b);
      }
    }
  }

  /** If one owner is left on the old frame, one is left on its slot. */
  lemma OneLeft(s: Vm, a: nat, p: nat, dest: nat, s': Vm, g: int, b: nat)
    requires IsCopy(s, a, p, dest, s')
    requires Owns(s'.slots, g, b) && Left(s, a, p, b, s'.slots[g].page)
    ensures |s'.slots[g].owners| == 1
  {
    hide CleanIsStored, SharedIsCow, EntriesOk, OwnersAgree, MarkedIsOwned, ClearIsUnowned;
    var src := At(s.tables, a, p).frame;
    var rest := Released(s.frames[src], a).owners;
    assert b in rest;
    assert Owns(s.frames, src, b) && Owns(s.slots, g, b);
    var os := s'.slots[g].owners;
    forall i | 0 <= i < |os|
      ensures os[i] == b
    {
      var c := os[i];
      assert c in os && Owns(s.slots, g, c);
      assert SameFrame(At(s.tables, c, s.slots[g].page), At(s.tables, b, s.slots[g].page));
      assert Owns(s.frames, src, c);
      assert c in rest;
    }
    AllSame(os, b);
  }

  /** The copy changes nobody's page contents. */
  lemma CopyContent(s: Vm, a: nat, p: nat, dest: nat, s': Vm, b: nat, q: nat)
    requires IsCopy(s, a, p, dest, s') && Has(s.tables, b, q)
    ensures Has(s'.tables, b, q)
    ensures Content(s', At(s'.tables, b, q)) == Content(s, At(s.tables, b, q))
    ensures EntryOk(At(s'.tables, b, q))
    ensures (b, q) != (a, p) ==> Stored(s', At(s'.tables, b, q)) == Stored(s, At(s.tables, b, q))
  {
    if At(s.tables, b, q).valid {
      assert Owns(s.frames, At(s.tables, b, q).frame, b);
    }
  }

  lemma CopyClean(s: Vm, a: nat, p: nat, dest: nat, s': Vm)
    requires IsCopy(s, a, p, dest, s')
    ensures CleanIsStored(s') && EntriesOk(s'.tables)
  {
    forall b: nat, q: nat | Has(s'.tables, b, q)
      ensures EntryOk(At(s'.tables, b, q))
      ensures At(s'.tables, b, q).valid && !At(s'.tables, b, q).dirty ==>
        Stored(s', At(s'.tables, b, q)) == Content(s', At(s'.tables, b, q))
    {
      CopyContent(s, a, p, dest, s', b, q);
    }
  }

  lemma CopyUsable(s: Vm, a: nat, p: nat, dest: nat, s': Vm)
    requires IsCopy(s, a, p, dest, s')
    ensures Sizes(s')
    ensures ClearIsUnowned(s'.frames, s'.bits)
    ensures ClearIsUnowned(s'.slots, s'.swapBits) && MarkedIsOwned(s'.slots, s'.swapBits)
    ensures forall f: nat :: Usable(s, f) || f == dest ==> Usable(s', f)
  {
  }

  lemma CopyKeeps(s: Vm, a: nat, p: nat, dest: nat)
    requires CopyOk(s, a, p, dest)
    ensures IsCopy(s, a, p, dest, Copied(s, a, p, dest))
    ensures Core(Copied(s, a, p, dest))
  {
    CopiedFrames(s, a, p, dest);
    CopiedSlots(s, a, p, dest);
    CopiedEntry(s, a, p, dest);
    var s' := Copied(s, a, p, dest);
    CopyTracksPhys(s, a, p, dest, s');
    CopyTracksDisk(s, a, p, dest, s');
    CopyShared(s, a, p, dest, s');
    CopySharedSlots(s, a, p, dest, s');
    CopyClean(s, a, p, dest, s');
    CopyUsable(s, a, p, dest, s');
  }

  // ---------------------------------------------------------------- marking

  ghost predicate IsMark(s: Vm, a: nat, p: nat, writing: bool, s': Vm) {
    && Core(s) && Has(s.tables, a, p) && At(s.tables, a, p).valid
    && (writing ==> !At(s.tables, a, p).cow)
    && s' == s.(tables := s'.tables)
    && s'.tables.Keys == s.tables.Keys
    && (forall b, q :: Has(s'.tables, b, q) <==> Has(s.tables, b, q))
    && (forall b, q :: Has(s.tables, b, q) ==>
          var e := At(s.tables, b, q);
          At(s'.tables, b, q) ==
          if b == a && q == p then e.(use := true, history := e.history | 0x80, dirty := e.dirty || writing) else e)
  }

  lemma MarkTracks(s: Vm, a: nat, p: nat, writing: bool, s': Vm)
    requires IsMark(s, a, p, writing, s')
    ensures Tracks(Phys, s.frames, s'.tables) && Tracks(Disk, s.slots, s'.tables)
    ensures SharedIsCow(s.frames, s'.tables) && SharedIsCow(s.slots, s'.tables)
  {
    assert forall k, b, q :: Has(s.tables, b, q) ==> Ref(k, At(s'.tables, b, q)) == Ref(k, At(s.tables, b, q));
  }

  lemma MarkAgree(s: Vm, a: nat, p: nat, writing: bool, s': Vm)
    requires IsMark(s, a, p, writing, s')
    ensures OwnersAgree(s.frames, s'.tables) && SlotOwnersAgree(s.slots, s'.tables)
  {
    var f := At(s.tables, a, p).frame;
    assert Owns(s.frames, f, a);
    if writing {
      assert s.frames[f].owners == [a];
    }
  }

  /** A read, or a write to a page that is not shared, sets bits and no more. */
  lemma MarkKeeps(s: Vm, a: nat, p: nat, writing: bool)
    requires Core(s) && Has(s.tables, a, p) && At(s.tables, a, p).valid
    requires writing ==> !At(s.tables, a, p).cow
    ensures IsMark(s, a, p, writing, Mark(s, a, p, writing))
    ensures Core(Mark(s, a, p, writing))
  {
    var s' := Mark(s, a, p, writing);
    MarkIs(s, a, p, writing);
    MarkTracks(s, a, p, writing, s');
    MarkAgree(s, a, p, writing, s');
    hide Mark, SharedIsCow, OwnersAgree, SlotOwnersAgree, Tracks, MarkedIsOwned, ClearIsUnowned;
  }

  lemma MarkIs(s: Vm, a: nat, p: nat, writing: bool)
    requires Core(s) && Has(s.tables, a, p) && At(s.tables, a, p).valid
    requires writing ==> !At(s.tables, a, p).cow
    ensures IsMark(s, a, p, writing, Mark(s, a, p, writing))
  {
    hide Core;
  }

  /** A store into a page that one space maps alone changes that page and no other. */
  lemma StoreKeeps(s: Vm, a: nat, p: nat, off: nat, bytes: seq<bv8>)
    requires Core(s) && Has(s.tables, a, p)
    requires var e := At(s.tables, a, p); e.valid && e.dirty && !e.cow
    requires off + |bytes| <= PAGE_SIZE
    ensures var f := At(s.tables, a, p).frame;
      && f < |s.mem| && |s.mem[f]| == PAGE_SIZE
      && Core(Store(s, f, off, bytes))
      && Content(s, At(s.tables, a, p)) == Some(s.mem[f])
      && Content(Store(s, f, off, bytes), At(s.tables, a, p)) == Some(Splice(s.mem[f], off, bytes))
      && (forall b: nat, q: nat :: Has(s.tables, b, q) && (b, q) != (a, p) ==>
            Content(Store(s, f, off, bytes), At(s.tables, b, q)) == Content(s, At(s.tables, b, q)))
  {
    var f := At(s.tables, a, p).frame;
    assert Owns(s.frames, f, a);
    assert s.frames[f].owners == [a];
    forall b: nat, q: nat | Has(s.tables, b, q) && (b, q) != (a, p) && At(s.tables, b, q).valid
      ensures At(s.tables, b, q).frame != f
    {
      assert Owns(s.frames, At(s.tables, b, q).frame, b);
    }
  }
}
