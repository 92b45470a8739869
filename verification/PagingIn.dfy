// Getting a frame and loading a page into it keep the ownership invariant and
// every page's contents.

module PagingIn {
  import opened Paging
  import opened PagingOut

  // ---------------------------------------------------------------- getting a frame

  lemma AllocKeeps(s: Vm, cur: nat, notMe: int, victim: nat)
    requires Core(s) && CanAlloc(s, cur, notMe, victim)
    ensures var s' := Alloc(s, cur, notMe, victim);
      var d := AllocFrame(s, cur, victim);
      && Core(s')
      && d < NUM_PHYS_PAGES && s'.frames[d].owners == [] && s'.bits[d]
      && s'.tables.Keys == s.tables.Keys
      && (forall g: nat :: g != d ==> (Usable(s', g) <==> Usable(s, g)))
  {
    if !FindsFree(s, cur) {
      PageOutKeeps(s, victim);
      OutTables(s, victim);
    }
  }

  /** A page keeps its contents while a frame is got, and an entry that is not
      mapped, or that maps the excluded frame, is not touched. */
  lemma AllocKeepsPage(s: Vm, cur: nat, notMe: int, victim: nat, b: nat, q: nat)
    requires Core(s) && CanAlloc(s, cur, notMe, victim) && Has(s.tables, b, q)
    ensures var s' := Alloc(s, cur, notMe, victim);
      var e := At(s.tables, b, q);
      && Has(s'.tables, b, q)
      && Content(s', At(s'.tables, b, q)) == Content(s, e)
      && (!e.valid || e.frame == notMe ==> At(s'.tables, b, q) == e)
      && (e.valid && e.frame == notMe ==> AllocFrame(s, cur, victim) != e.frame)
  {
    var e := At(s.tables, b, q);
    if FindsFree(s, cur) {
      if e.valid {
        assert Owns(s.frames, e.frame, b);
      }
    } else {
      OutContent(s, victim, b, q);
      OutTables(s, victim);
      OutChanges(s, victim, b, q);
    }
  }

  // ---------------------------------------------------------------- loading

  ghost predicate LoadOk(s: Vm, a: nat, p: nat, dest: nat, now: nat) {
    && Core(s) && CanLoad(s, a, p, dest)
    && now < NEVER
    && dest < NUM_PHYS_PAGES && s.frames[dest].owners == [] && s.bits[dest]
    && !s.tables[a][p].valid
  }

  /** The entries that the load maps. */
  ghost predicate Hit(s: Vm, a: nat, p: nat, dest: nat, b: nat, q: nat)
    requires CanLoad(s, a, p, dest)
  {
    b in Loaded(s, a, p, dest).owners && q == p
  }

  function Mapping(s: Vm, a: nat, p: nat, dest: nat, now: nat, e: Entry): Entry
    requires CanLoad(s, a, p, dest)
  {
    e.(valid := true, use := false, dirty := false, frame := dest, time := now,
       cow := e.cow && s.tables[a][p].file == Swap)
  }

  lemma LoadTables(s: Vm, a: nat, p: nat, dest: nat, now: nat)
    requires LoadOk(s, a, p, dest, now)
    ensures var t' := Load(s, a, p, dest, now).tables;
      && t'.Keys == s.tables.Keys
      && (forall b, q :: Has(t', b, q) <==> Has(s.tables, b, q))
      && (forall b, q :: Has(s.tables, b, q) ==>
            At(t', b, q) ==
            if Hit(s, a, p, dest, b, q) then Mapping(s, a, p, dest, now, At(s.tables, b, q))
            else At(s.tables, b, q))
  {
    var e := s.tables[a][p];
    var t := if e.file == Swap then s.tables else Put(s.tables, a, p, e.(cow := false));
    EditAllAt(t, Loaded(s, a, p, dest).owners, p, MapTo(dest, now));
  }

  /** The entries that the load maps were not mapped, and all have the same source. */
  lemma HitUnmapped(s: Vm, a: nat, p: nat, dest: nat, now: nat, b: nat, q: nat)
    requires LoadOk(s, a, p, dest, now)
    requires Has(s.tables, b, q)
    ensures Hit(s, a, p, dest, b, q) ==>
      && !At(s.tables, b, q).valid
      && Stored(s, At(s.tables, b, q)) == Stored(s, At(s.tables, a, p))
      && At(s.tables, b, q).file == At(s.tables, a, p).file
      && At(s.tables, b, q).offset == At(s.tables, a, p).offset
      && At(s.tables, b, q).zero == At(s.tables, a, p).zero
    ensures At(s.tables, a, p).file == Swap ==>
      (Hit(s, a, p, dest, b, q) <==> Ref(Disk, At(s.tables, b, q)) == Slot(At(s.tables, a, p)))
    ensures Hit(s, a, p, dest, a, p) && Loaded(s, a, p, dest).page == p
  {
    var k := Slot(At(s.tables, a, p));
    if At(s.tables, a, p).file == Swap {
      assert Owns(s.slots, k, a);
      if b in s.slots[k].owners {
        assert Owns(s.slots, k, b);
      }
    }
  }

  lemma LoadTracksPhys(s: Vm, a: nat, p: nat, dest: nat, now: nat)
    requires LoadOk(s, a, p, dest, now)
    ensures Tracks(Phys, Load(s, a, p, dest, now).frames, Load(s, a, p, dest, now).tables)
  {
    LoadTables(s, a, p, dest, now);
    HitUnmapped(s, a, p, dest, now, a, p);
    var s' := Load(s, a, p, dest, now);
    forall g: int, b: nat | Owns(s'.frames, g, b)
      ensures Has(s'.tables, b, s'.frames[g].page) && Ref(Phys, At(s'.tables, b, s'.frames[g].page)) == g
    {
      if g != dest {
        assert Owns(s.frames, g, b);
        HitUnmapped(s, a, p, dest, now, b, s.frames[g].page);
      }
    }
    forall b: nat, q: nat | Has(s'.tables, b, q) && Ref(Phys, At(s'.tables, b, q)) >= 0
      ensures Owns(s'.frames, Ref(Phys, At(s'.tables, b, q)), b) && s'.frames[Ref(Phys, At(s'.tables, b, q))].page == q
    {
      if !Hit(s, a, p, dest, b, q) {
        assert Owns(s.frames, Ref(Phys, At(s.tables, b, q)), b);
      }
    }
    assert Once(s'.frames);
  }

  lemma LoadTracksDisk(s: Vm, a: nat, p: nat, dest: nat, now: nat)
    requires LoadOk(s, a, p, dest, now)
    ensures Tracks(Disk, s.slots, Load(s, a, p, dest, now).tables)
  {
    LoadTables(s, a, p, dest, now);
    var t' := Load(s, a, p, dest, now).tables;
    forall g: int, b: nat | Owns(s.slots, g, b)
      ensures Has(t', b, s.slots[g].page) && Ref(Disk, At(t', b, s.slots[g].page)) == g
    {
    }
    forall b: nat, q: nat | Has(t', b, q) && Ref(Disk, At(t', b, q)) >= 0
      ensures Owns(s.slots, Ref(Disk, At(t', b, q)), b) && s.slots[Ref(Disk, At(t', b, q))].page == q
    {
      assert Ref(Disk, At(t', b, q)) == Ref(Disk, At(s.tables, b, q));
    }
  }

  lemma LoadShared(s: Vm, a: nat, p: nat, dest: nat, now: nat)
    requires LoadOk(s, a, p, dest, now)
    ensures SharedIsCow(Load(s, a, p, dest, now).frames, Load(s, a, p, dest, now).tables)
  {
    LoadTables(s, a, p, dest, now);
    HitUnmapped(s, a, p, dest, now, a, p);
    var s' := Load(s, a, p, dest, now);
    forall g: int, b: nat | Owns(s'.frames, g, b) && |s'.frames[g].owners| >= 2
      ensures Has(s'.tables, b, s'.frames[g].page) && At(s'.tables, b, s'.frames[g].page).cow
    {
      if g != dest {
        assert Owns(s.frames, g, b);
        HitUnmapped(s, a, p, dest, now, b, s.frames[g].page);
      } else {
        assert Owns(s.slots, Slot(At(s.tables, a, p)), b);
      }
    }
  }

  lemma LoadAgree(s: Vm, a: nat, p: nat, dest: nat, now: nat)
    requires LoadOk(s, a, p, dest, now)
    ensures OwnersAgree(Load(s, a, p, dest, now).frames, Load(s, a, p, dest, now).tables)
  {
    hide CleanIsStored, SharedIsCow, SlotOwnersAgree, MarkedIsOwned, ClearIsUnowned, Stored;
    LoadTables(s, a, p, dest, now);
    HitUnmapped(s, a, p, dest, now, a, p);
    var s' := Load(s, a, p, dest, now);
    forall g: int, b: nat, c: nat | Owns(s'.frames, g, b) && Owns(s'.frames, g, c)
      ensures Has(s'.tables, b, s'.frames[g].page) && Has(s'.tables, c, s'.frames[g].page)
      ensures SameSource(At(s'.tables, b, s'.frames[g].page), At(s'.tables, c, s'.frames[g].page))
    {
      if g != dest {
        assert Owns(s.frames, g, b) && Owns(s.frames, g, c);
        HitUnmapped(s, a, p, dest, now, b, s.frames[g].page);
        HitUnmapped(s, a, p, dest, now, c, s.frames[g].page);
      } else {
        HitUnmapped(s, a, p, dest, now, b, p);
        HitUnmapped(s, a, p, dest, now, c, p);
      }
    }
  }

  lemma LoadSlots(s: Vm, a: nat, p: nat, dest: nat, now: nat)
    requires LoadOk(s, a, p, dest, now)
    ensures SharedIsCow(s.slots, Load(s, a, p, dest, now).tables)
    ensures SlotOwnersAgree(s.slots, Load(s, a, p, dest, now).tables)
  {
    LoadTables(s, a, p, dest, now);
    var t' := Load(s, a, p, dest, now).tables;
    forall g: int, b: nat | Owns(s.slots, g, b)
      ensures Has(t', b, s.slots[g].page)
      ensures At(t', b, s.slots[g].page).cow == At(s.tables, b, s.slots[g].page).cow
      ensures var e := At(s.tables, b, s.slots[g].page);
        At(t', b, s.slots[g].page) ==
        if At(s.tables, a, p).file == Swap && g == Slot(At(s.tables, a, p))
        then Mapping(s, a, p, dest, now, e) else e
    {
      HitUnmapped(s, a, p, dest, now, b, s.slots[g].page);
    }
  }

  /** Loading a page changes nobody's page contents. */
  lemma LoadContent(s: Vm, a: nat, p: nat, dest: nat, now: nat, b: nat, q: nat)
    requires LoadOk(s, a, p, dest, now) && Has(s.tables, b, q)
    ensures var s' := Load(s, a, p, dest, now);
      && Has(s'.tables, b, q)
      && Content(s', At(s'.tables, b, q)) == Content(s, At(s.tables, b, q))
      && Stored(s', At(s'.tables, b, q)) == Stored(s, At(s.tables, b, q))
      && EntryOk(At(s'.tables, b, q))
      && (Hit(s, a, p, dest, b, q) ==>
           Content(s', At(s'.tables, b, q)) == Stored(s, At(s.tables, b, q)))
  {
    LoadTables(s, a, p, dest, now);
    HitUnmapped(s, a, p, dest, now, b, q);
    if At(s.tables, b, q).valid {
      assert Owns(s.frames, At(s.tables, b, q).frame, b);
    }
  }

  lemma LoadKeeps(s: Vm, a: nat, p: nat, dest: nat, now: nat)
    requires LoadOk(s, a, p, dest, now)
    ensures Core(Load(s, a, p, dest, now))
    ensures Load(s, a, p, dest, now).frames[dest].owners != []
    ensures Has(Load(s, a, p, dest, now).tables, a, p) && At(Load(s, a, p, dest, now).tables, a, p).valid
  {
    var s' := Load(s, a, p, dest, now);
    LoadTables(s, a, p, dest, now);
    HitUnmapped(s, a, p, dest, now, a, p);
    LoadTracksPhys(s, a, p, dest, now);
    LoadTracksDisk(s, a, p, dest, now);
    LoadShared(s, a, p, dest, now);
    LoadAgree(s, a, p, dest, now);
    LoadSlots(s, a, p, dest, now);
    forall b: nat, q: nat | Has(s'.tables, b, q)
      ensures EntryOk(At(s'.tables, b, q))
      ensures At(s'.tables, b, q).valid && !At(s'.tables, b, q).dirty ==>
        Stored(s', At(s'.tables, b, q)) == Content(s', At(s'.tables, b, q))
    {
      LoadContent(s, a, p, dest, now, b, q);
    }
  }
}
