// Page-out keeps the ownership invariant and every page's contents.

module PagingOut {
  import opened Options
  import opened FreeBits
  import opened Paging

  lemma {:induction false} EditAllAt(t: Tables, owners: seq<nat>, p: nat, ed: Edit)
    requires forall a :: a in owners ==> a in t && p < |t[a]|
    ensures forall b, q :: Has(EditAll(t, owners, p, ed), b, q) <==> Has(t, b, q)
    ensures forall b, q :: Has(t, b, q) ==>
      At(EditAll(t, owners, p, ed), b, q) ==
      if b in owners && q == p then Apply(ed, At(t, b, q)) else At(t, b, q)
    decreases |owners|
  {
    if owners != [] {
      var n := |owners| - 1;
      EditAllAt(t, owners[..n], p, ed);
      assert owners == owners[..n] + [owners[n]];
    }
  }

  /** What page-out leaves in the entry of an owner. */
  function Outed(s: Vm, f: nat, e: Entry): Entry
    requires CanPageOut(s, f)
  {
    if NeedsSlot(s, f) then
      e.(file := Swap, offset := FirstClear(s.swapBits, 0) * PAGE_SIZE, zero := false, valid := false)
    else if Rep(s, f).file == Swap then e.(valid := false)
    else e.(cow := false, valid := false)
  }

  /** The slot that page-out fills or hands the owner list to. */
  function OutSlot(s: Vm, f: nat): nat
    requires CanPageOut(s, f)
  {
    if NeedsSlot(s, f) then FirstClear(s.swapBits, 0) else Slot(Rep(s, f))
  }

  lemma OutTables(s: Vm, f: nat)
    requires CanPageOut(s, f)
    ensures var t' := PageOut(s, f).tables;
      && t'.Keys == s.tables.Keys
      && (forall b, q :: Has(t', b, q) <==> Has(s.tables, b, q))
      && (forall b, q :: Has(s.tables, b, q) ==>
            At(t', b, q) ==
            if b in s.frames[f].owners && q == s.frames[f].page
            then Outed(s, f, At(s.tables, b, q)) else At(s.tables, b, q))
  {
    var fr := s.frames[f];
    var t1 :=
      if NeedsSlot(s, f) then EditAll(s.tables, fr.owners, fr.page, ToSlot(OutSlot(s, f)))
      else if Rep(s, f).file == Swap then s.tables
      else EditAll(s.tables, fr.owners, fr.page, Private);
    if NeedsSlot(s, f) {
      EditAllAt(s.tables, fr.owners, fr.page, ToSlot(OutSlot(s, f)));
    } else if Rep(s, f).file != Swap {
      EditAllAt(s.tables, fr.owners, fr.page, Private);
    }
    EditAllAt(t1, fr.owners, fr.page, Unmap);
  }

  /** Entries that page-out changes are exactly those that map the frame. */
  lemma OutChanges(s: Vm, f: nat, b: nat, q: nat)
    requires Core(s) && CanPageOut(s, f) && Has(s.tables, b, q)
    ensures b in s.frames[f].owners && q == s.frames[f].page <==> Ref(Phys, At(s.tables, b, q)) == f
    ensures Ref(Phys, At(s.tables, b, q)) == f ==> SameSource(At(s.tables, b, q), Rep(s, f))
  {
    var a := s.frames[f].owners[0];
    assert Owns(s.frames, f, a);
    if b in s.frames[f].owners {
      assert Owns(s.frames, f, b);
    }
    if Ref(Phys, At(s.tables, b, q)) == f {
      assert Owns(s.frames, f, b);
    }
  }

  /** The entries that refer to the page's slot, if it has one, map the frame. */
  lemma OutSlotOwners(s: Vm, f: nat, b: nat, q: nat)
    requires Core(s) && CanPageOut(s, f) && Has(s.tables, b, q)
    requires Rep(s, f).dirty || Rep(s, f).file == Swap
    ensures Ref(Disk, At(s.tables, b, q)) == OutSlot(s, f) ==>
      !NeedsSlot(s, f) && Ref(Phys, At(s.tables, b, q)) == f
    ensures !NeedsSlot(s, f) && Ref(Phys, At(s.tables, b, q)) == f ==>
      Ref(Disk, At(s.tables, b, q)) == OutSlot(s, f)
  {
    OutChanges(s, f, b, q);
    var a := s.frames[f].owners[0];
    OutChanges(s, f, a, s.frames[f].page);
    var k := OutSlot(s, f);
    if Ref(Disk, At(s.tables, b, q)) == k {
      assert Owns(s.slots, k, b);
      if !NeedsSlot(s, f) {
        assert Owns(s.slots, k, a);
      }
    }
  }

  lemma OutTracksPhys(s: Vm, f: nat)
    requires Core(s) && CanPageOut(s, f)
    ensures Tracks(Phys, PageOut(s, f).frames, PageOut(s, f).tables)
  {
    OutTables(s, f);
    var s' := PageOut(s, f);
    forall g: int, a: nat | Owns(s'.frames, g, a)
      ensures Has(s'.tables, a, s'.frames[g].page) && Ref(Phys, At(s'.tables, a, s'.frames[g].page)) == g
    {
      assert Owns(s.frames, g, a);
      OutChanges(s, f, a, s.frames[g].page);
    }
    forall a: nat, p: nat | Has(s'.tables, a, p) && Ref(Phys, At(s'.tables, a, p)) >= 0
      ensures Owns(s'.frames, Ref(Phys, At(s'.tables, a, p)), a) && s'.frames[Ref(Phys, At(s'.tables, a, p))].page == p
    {
      OutChanges(s, f, a, p);
      assert Owns(s.frames, Ref(Phys, At(s.tables, a, p)), a);
    }
  }

  lemma OutTracksDisk(s: Vm, f: nat)
    requires Core(s) && CanPageOut(s, f)
    ensures Tracks(Disk, PageOut(s, f).slots, PageOut(s, f).tables)
  {
    hide CleanIsStored, SharedIsCow, OwnersAgree, SlotOwnersAgree, MarkedIsOwned, EditAll, Content, Stored;
    OutTables(s, f);
    var s' := PageOut(s, f);
    var k := OutSlot(s, f);
    forall g: int, a: nat | Owns(s'.slots, g, a)
      ensures Has(s'.tables, a, s'.slots[g].page) && Ref(Disk, At(s'.tables, a, s'.slots[g].page)) == g
    {
      if s'.slots[g] != s.slots[g] {
        assert Owns(s.frames, f, a);
        OutChanges(s, f, a, s.frames[f].page);
        OutSlotOwners(s, f, a, s.frames[f].page);
      } else {
        assert Owns(s.slots, g, a);
        OutChanges(s, f, a, s.slots[g].page);
      }
    }
    forall a: nat, p: nat | Has(s'.tables, a, p) && Ref(Disk, At(s'.tables, a, p)) >= 0
      ensures Owns(s'.slots, Ref(Disk, At(s'.tables, a, p)), a) && s'.slots[Ref(Disk, At(s'.tables, a, p))].page == p
    {
      OutChanges(s, f, a, p);
      if Rep(s, f).dirty || Rep(s, f).file == Swap {
        OutSlotOwners(s, f, a, p);
      }
      if Ref(Disk, At(s.tables, a, p)) >= 0 {
        assert Owns(s.slots, Ref(Disk, At(s.tables, a, p)), a);
      }
    }
  }

  lemma OutShared(s: Vm, f: nat)
    requires Core(s) && CanPageOut(s, f)
    ensures SharedIsCow(PageOut(s, f).frames, PageOut(s, f).tables)
    ensures OwnersAgree(PageOut(s, f).frames, PageOut(s, f).tables)
  {
    OutTables(s, f);
    var s' := PageOut(s, f);
    forall g: int, a: nat | Owns(s'.frames, g, a)
      ensures Owns(s.frames, g, a) && g != f && s'.frames[g] == s.frames[g]
      ensures Has(s.tables, a, s.frames[g].page) && At(s'.tables, a, s.frames[g].page) == At(s.tables, a, s.frames[g].page)
    {
      assert Owns(s.frames, g, a);
      OutChanges(s, f, a, s.frames[g].page);
    }
  }

  /** A slot after page-out is the frame's, or it and its owners' entries are as before. */
  lemma OutSlotEntry(s: Vm, f: nat, g: int, a: nat)
    requires Core(s) && CanPageOut(s, f) && Owns(PageOut(s, f).slots, g, a)
    ensures var s' := PageOut(s, f);
      if (Rep(s, f).dirty || Rep(s, f).file == Swap) && g == OutSlot(s, f) then
        && s'.slots[g] == s.frames[f] && Owns(s.frames, f, a)
        && Has(s'.tables, a, s.frames[f].page)
        && At(s'.tables, a, s.frames[f].page) == Outed(s, f, At(s.tables, a, s.frames[f].page))
      else
        && s'.slots[g] == s.slots[g] && Owns(s.slots, g, a)
        && Has(s'.tables, a, s.slots[g].page)
        && At(s'.tables, a, s.slots[g].page) == At(s.tables, a, s.slots[g].page)
  {
    OutTables(s, f);
    if (Rep(s, f).dirty || Rep(s, f).file == Swap) && g == OutSlot(s, f) {
      assert Owns(s.frames, f, a);
    } else {
      assert Owns(s.slots, g, a);
      OutChanges(s, f, a, s.slots[g].page);
      if Rep(s, f).dirty || Rep(s, f).file == Swap {
        OutSlotOwners(s, f, a, s.slots[g].page);
      }
    }
  }

  lemma OutSharedSlots(s: Vm, f: nat)
    requires Core(s) && CanPageOut(s, f)
    ensures SharedIsCow(PageOut(s, f).slots, PageOut(s, f).tables)
  {
    var s' := PageOut(s, f);
    forall g: int, a: nat | Owns(s'.slots, g, a) && |s'.slots[g].owners| >= 2
      ensures Has(s'.tables, a, s'.slots[g].page) && At(s'.tables, a, s'.slots[g].page).cow
    {
      OutSlotEntry(s, f, g, a);
    }
  }

  lemma OutSlotsAgree(s: Vm, f: nat)
    requires Core(s) && CanPageOut(s, f)
    ensures SlotOwnersAgree(PageOut(s, f).slots, PageOut(s, f).tables)
  {
    hide Tracks, CleanIsStored, SharedIsCow, OwnersAgree, ClearIsUnowned, MarkedIsOwned, EntriesOk, EditAll, PageOut;
    var s' := PageOut(s, f);
    forall g: int, a: nat, b: nat | Owns(s'.slots, g, a) && Owns(s'.slots, g, b)
      ensures Has(s'.tables, a, s'.slots[g].page) && Has(s'.tables, b, s'.slots[g].page)
      ensures SameFrame(At(s'.tables, a, s'.slots[g].page), At(s'.tables, b, s'.slots[g].page))
    {
      OutSlotEntry(s, f, g, a);
      OutSlotEntry(s, f, g, b);
    }
  }

  lemma OutStored(s: Vm, f: nat, b: nat, q: nat)
    requires Core(s) && CanPageOut(s, f) && Has(s.tables, b, q)
    requires Ref(Phys, At(s.tables, b, q)) != f
    ensures Stored(PageOut(s, f), At(s.tables, b, q)) == Stored(s, At(s.tables, b, q))
  {
    hide Tracks, CleanIsStored, SharedIsCow, OwnersAgree, SlotOwnersAgree, EntriesOk, EditAll, MarkedIsOwned, ClearIsUnowned;
    if Rep(s, f).dirty || Rep(s, f).file == Swap {
      OutSlotOwners(s, f, b, q);
    }
  }

  lemma OutSwap(s: Vm, f: nat)
    requires Sizes(s) && CanPageOut(s, f)
    ensures PageOut(s, f).mem == s.mem && PageOut(s, f).images == s.images
    ensures PageOut(s, f).swap ==
      if Rep(s, f).dirty then s.swap[OutSlot(s, f) := s.mem[f]] else s.swap
  {
  }

  lemma OutedStored(s: Vm, f: nat, s': Vm, e: Entry)
    requires Sizes(s) && CanPageOut(s, f)
    requires SameSource(e, Rep(s, f)) && e.valid && e.frame == f
    requires !e.dirty ==> Stored(s, e) == Content(s, e)
    requires EntryOk(e)
    requires s'.images == s.images
    requires s'.swap == if e.dirty then s.swap[OutSlot(s, f) := s.mem[f]] else s.swap
    ensures Stored(s', Outed(s, f, e)) == Some(s.mem[f])
  {
  }

  /** Page-out changes nobody's page contents. */
  lemma OutContent(s: Vm, f: nat, b: nat, q: nat)
    requires Core(s) && CanPageOut(s, f) && Has(s.tables, b, q)
    ensures Has(PageOut(s, f).tables, b, q)
    ensures Content(PageOut(s, f), At(PageOut(s, f).tables, b, q)) == Content(s, At(s.tables, b, q))
  {
    OutTables(s, f);
    OutChanges(s, f, b, q);
    if Ref(Phys, At(s.tables, b, q)) == f {
      OutSwap(s, f);
      OutedStored(s, f, PageOut(s, f), At(s.tables, b, q));
    } else {
      OutStored(s, f, b, q);
    }
  }

  lemma OutClean(s: Vm, f: nat)
    requires Core(s) && CanPageOut(s, f)
    ensures CleanIsStored(PageOut(s, f))
    ensures EntriesOk(PageOut(s, f).tables)
  {
    hide Tracks, SharedIsCow, OwnersAgree, SlotOwnersAgree, ClearIsUnowned, MarkedIsOwned, EditAll;
    OutTables(s, f);
    var s' := PageOut(s, f);
    forall a: nat, p: nat | Has(s'.tables, a, p)
      ensures EntryOk(At(s'.tables, a, p))
      ensures At(s'.tables, a, p).valid && !At(s'.tables, a, p).dirty ==>
        Stored(s', At(s'.tables, a, p)) == Content(s', At(s'.tables, a, p))
    {
      OutChanges(s, f, a, p);
      if Rep(s, f).dirty || Rep(s, f).file == Swap {
        OutSlotOwners(s, f, a, p);
      }
    }
  }

  lemma OutBits(s: Vm, f: nat)
    requires Core(s) && CanPageOut(s, f)
    ensures ClearIsUnowned(PageOut(s, f).slots, PageOut(s, f).swapBits)
    ensures MarkedIsOwned(PageOut(s, f).slots, PageOut(s, f).swapBits)
  {
    var a := s.frames[f].owners[0];
    OutChanges(s, f, a, s.frames[f].page);
    if Rep(s, f).file == Swap {
      assert Owns(s.slots, OutSlot(s, f), a);
    }
  }

  lemma PageOutKeeps(s: Vm, f: nat)
    requires Core(s) && CanPageOut(s, f)
    ensures Core(PageOut(s, f))
    ensures PageOut(s, f).frames[f].owners == []
  {
    hide Tracks, CleanIsStored, SharedIsCow, OwnersAgree, SlotOwnersAgree, EntriesOk, EditAll, Stored, MarkedIsOwned;
    OutTables(s, f);
    OutTracksPhys(s, f);
    OutTracksDisk(s, f);
    OutShared(s, f);
    OutSharedSlots(s, f);
    OutSlotsAgree(s, f);
    OutClean(s, f);
    OutBits(s, f);
  }
}
