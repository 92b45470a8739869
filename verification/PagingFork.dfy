// Fork shares pages and exit gives them up: both keep the ownership invariant
// and the contents of every page that lives on.

module PagingFork {
  import opened Sequences
  import opened Paging
  import opened PagingCow

  // ---------------------------------------------------------------- fork

  /** s' is s after page `i` of `cur` was shared with `child`. */
  ghost predicate IsShare(s: Vm, cur: nat, child: nat, i: nat, s': Vm) {
    && Core(s) && CanShare(s, cur, child) && i == |s.tables[child]|
    && var e := At(s.tables, cur, i);
    && s'.slots == (if e.file == Swap then s.slots[Slot(e) := Frame(s.slots[Slot(e)].owners + [child], i)] else s.slots)
    && s'.frames == (if e.valid then s.frames[e.frame := Frame(s.frames[e.frame].owners + [child], i)] else s.frames)
    && s' == s.(slots := s'.slots, frames := s'.frames, tables := s'.tables)
    && s'.tables.Keys == s.tables.Keys
    && (forall b, q :: Has(s'.tables, b, q) <==> Has(s.tables, b, q) || (b == child && q == i))
    && (forall b, q :: Has(s'.tables, b, q) ==>
          At(s'.tables, b, q) ==
          if b == child && q == i then ChildEntry(e)
          else if b == cur && q == i then e.(cow := e.cow || Sharing(e))
          else At(s.tables, b, q))
    // The recorded page is i already, and the child is not yet an owner.
    && (e.valid ==> Owns(s.frames, e.frame, cur) && s.frames[e.frame].page == i && child !in s.frames[e.frame].owners)
    && (e.file == Swap ==> Owns(s.slots, Slot(e), cur) && s.slots[Slot(e)].page == i && child !in s.slots[Slot(e)].owners)
  }

  lemma ShareIs(s: Vm, cur: nat, child: nat)
    requires Core(s) && CanShare(s, cur, child)
    ensures IsShare(s, cur, child, |s.tables[child]|, SharePage(s, cur, child))
  {
    var i := |s.tables[child]|;
    var e := At(s.tables, cur, i);
    if e.valid {
      assert Owns(s.frames, e.frame, cur);
      assert !Owns(s.frames, e.frame, child);
    }
    if e.file == Swap {
      assert Owns(s.slots, Slot(e), cur);
      assert !Owns(s.slots, Slot(e), child);
    }
  }

  lemma ShareTracks(k: Kind, s: Vm, cur: nat, child: nat, i: nat, s': Vm)
    requires IsShare(s, cur, child, i, s')
    ensures Tracks(k, if k == Phys then s'.frames else s'.slots, s'.tables)
  {
    hide CleanIsStored, SharedIsCow, OwnersAgree, SlotOwnersAgree, EntriesOk, MarkedIsOwned, ClearIsUnowned;
    var fr := if k == Phys then s.frames else s.slots;
    var fr' := if k == Phys then s'.frames else s'.slots;
    var e := At(s.tables, cur, i);
    forall g: int, b: nat | Owns(fr', g, b)
      ensures Has(s'.tables, b, fr'[g].page) && Ref(k, At(s'.tables, b, fr'[g].page)) == g
    {
      if !(b == child && g == Ref(k, e)) {
        assert Owns(fr, g, b);
      }
    }
    forall b: nat, q: nat | Has(s'.tables, b, q) && Ref(k, At(s'.tables, b, q)) >= 0
      ensures Owns(fr', Ref(k, At(s'.tables, b, q)), b) && fr'[Ref(k, At(s'.tables, b, q))].page == q
    {
      if b == child && q == i {
        assert fr'[Ref(k, e)].owners[|fr[Ref(k, e)].owners|] == child;
      } else {
        assert Owns(fr, Ref(k, At(s.tables, b, q)), b);
      }
    }
    assert Once(fr');
  }

  lemma ShareCow(k: Kind, s: Vm, cur: nat, child: nat, i: nat, s': Vm)
    requires IsShare(s, cur, child, i, s')
    ensures SharedIsCow(if k == Phys then s'.frames else s'.slots, s'.tables)
  {
    var fr := if k == Phys then s.frames else s.slots;
    var fr' := if k == Phys then s'.frames else s'.slots;
    var e := At(s.tables, cur, i);
    forall g: int, b: nat | Owns(fr', g, b) && |fr'[g].owners| >= 2
      ensures Has(s'.tables, b, fr'[g].page) && At(s'.tables, b, fr'[g].page).cow
    {
      if !(b == child && g == Ref(k, e)) {
        assert Owns(fr, g, b);
        if g == Ref(k, e) && |fr[g].owners| == 1 {
          assert fr[g].owners == [cur];
        }
      }
    }
  }

  lemma ShareAgree(s: Vm, cur: nat, child: nat, i: nat, s': Vm)
    requires IsShare(s, cur, child, i, s')
    ensures OwnersAgree(s'.frames, s'.tables)
  {
    hide CleanIsStored, SharedIsCow, SlotOwnersAgree, EntriesOk, MarkedIsOwned, ClearIsUnowned;
    var e := At(s.tables, cur, i);
    forall g: int, b: nat | Owns(s'.frames, g, b)
      ensures Has(s'.tables, b, s'.frames[g].page) && s'.frames[g].page == s.frames[g].page
      ensures if b == child && g == Ref(Phys, e)
              then SameSource(At(s'.tables, b, s.frames[g].page), e) && Owns(s.frames, g, cur)
              else Owns(s.frames, g, b) && SameSource(At(s'.tables, b, s.frames[g].page), At(s.tables, b, s.frames[g].page))
    {
      if !(b == child && g == Ref(Phys, e)) {
        assert Owns(s.frames, g, b);
      }
    }
  }

  lemma ShareSlotsAgree(s: Vm, cur: nat, child: nat, i: nat, s': Vm)
    requires IsShare(s, cur, child, i, s')
    ensures SlotOwnersAgree(s'.slots, s'.tables)
  {
    hide CleanIsStored, SharedIsCow, OwnersAgree, EntriesOk, MarkedIsOwned, ClearIsUnowned;
    var e := At(s.tables, cur, i);
    forall g: int, b: nat | Owns(s'.slots, g, b)
      ensures Has(s'.tables, b, s'.slots[g].page) && s'.slots[g].page == s.slots[g].page
      ensures if b == child && g == Ref(Disk, e)
              then SameFrame(At(s'.tables, b, s.slots[g].page), e) && Owns(s.slots, g, cur)
              else Owns(s.slots, g, b) && SameFrame(At(s'.tables, b, s.slots[g].page), At(s.tables, b, s.slots[g].page))
    {
      if !(b == child && g == Ref(Disk, e)) {
        assert Owns(s.slots, g, b);
      }
    }
  }

  /** Sharing a page changes nobody's contents, and gives the child the parent's. */
  lemma ShareContent(s: Vm, cur: nat, child: nat, i: nat, s': Vm, b: nat, q: nat)
    requires IsShare(s, cur, child, i, s') && Has(s'.tables, b, q)
    ensures var e := if b == child && q == i then At(s.tables, cur, i) else At(s.tables, b, q);
      && Content(s', At(s'.tables, b, q)) == Content(s, e)
      && Stored(s', At(s'.tables, b, q)) == Stored(s, e)
      && EntryOk(At(s'.tables, b, q))
  {
  }

  lemma ShareKeeps(s: Vm, cur: nat, child: nat)
    requires Core(s) && CanShare(s, cur, child)
    ensures IsShare(s, cur, child, |s.tables[child]|, SharePage(s, cur, child))
    ensures Core(SharePage(s, cur, child))
    ensures forall f: nat :: Usable(s, f) ==> Usable(SharePage(s, cur, child), f)
  {
    hide SharedIsCow, OwnersAgree, SlotOwnersAgree;
    ShareIs(s, cur, child);
    var i := |s.tables[child]|;
    var s' := SharePage(s, cur, child);
    ShareTracks(Phys, s, cur, child, i, s');
    ShareTracks(Disk, s, cur, child, i, s');
    ShareCow(Phys, s, cur, child, i, s');
    ShareCow(Disk, s, cur, child, i, s');
    ShareAgree(s, cur, child, i, s');
    ShareSlotsAgree(s, cur, child, i, s');
    forall b: nat, q: nat | Has(s'.tables, b, q)
      ensures EntryOk(At(s'.tables, b, q))
      ensures At(s'.tables, b, q).valid && !At(s'.tables, b, q).dirty ==>
        Stored(s', At(s'.tables, b, q)) == Content(s', At(s'.tables, b, q))
    {
      ShareContent(s, cur, child, i, s', b, q);
    }
  }

  // ---------------------------------------------------------------- new spaces

  predicate FreshEntry(e: Entry) {
    EntryOk(e) && !e.valid && e.file != Swap && e.history == 0
  }

  lemma AddTracks(k: Kind, fr: seq<Frame>, s: Vm, a: nat, t: seq<Entry>)
    requires Tracks(k, fr, s.tables) && a !in s.tables && forall p :: 0 <= p < |t| ==> FreshEntry(t[p])
    ensures Tracks(k, fr, AddSpace(s, a, t).tables)
  {
    var s' := AddSpace(s, a, t);
    assert forall b: nat, q: nat :: Has(s'.tables, b, q) <==> Has(s.tables, b, q) || (b == a && q < |t|);
    assert forall b, q :: Has(s.tables, b, q) ==> At(s'.tables, b, q) == At(s.tables, b, q);
    assert forall q :: Has(s'.tables, a, q) ==> FreshEntry(At(s'.tables, a, q));
  }

  /** A space with nothing mapped and nothing in swap can join. */
  lemma AddKeeps(s: Vm, a: nat, t: seq<Entry>)
    requires Core(s) && a !in s.tables && forall p :: 0 <= p < |t| ==> FreshEntry(t[p])
    ensures Core(AddSpace(s, a, t))
    ensures forall b, q :: Has(s.tables, b, q) ==>
      Has(AddSpace(s, a, t).tables, b, q) && At(AddSpace(s, a, t).tables, b, q) == At(s.tables, b, q)
  {
    var s' := AddSpace(s, a, t);
    assert forall b: nat, q: nat :: Has(s'.tables, b, q) <==> Has(s.tables, b, q) || (b == a && q < |t|);
    assert forall b, q :: Has(s.tables, b, q) ==> At(s'.tables, b, q) == At(s.tables, b, q);
    assert forall q :: Has(s'.tables, a, q) ==> FreshEntry(At(s'.tables, a, q));
    AddTracks(Phys, s.frames, s, a, t);
    AddTracks(Disk, s.slots, s, a, t);
    hide Tracks;
  }

  // ---------------------------------------------------------------- exit

  /** s' is s after space `a` gave up page `i`, before any unsharing. */
  ghost predicate IsDrop(s: Vm, a: nat, i: nat, s': Vm) {
    && Core(s) && Has(s.tables, a, i)
    && var e := At(s.tables, a, i);
    && (if e.valid then
          var rest := Released(s.frames[e.frame], a);
          && Owns(s.frames, e.frame, a) && rest.page == s.frames[e.frame].page == i && Distinct(rest.owners)
          && (forall b :: b in rest.owners <==> b in s.frames[e.frame].owners && b != a)
          && s'.frames == s.frames[e.frame := rest]
          && s'.bits == s.bits[e.frame := s.bits[e.frame] && rest.owners != []]
        else s'.frames == s.frames && s'.bits == s.bits)
    && (if e.file == Swap then
          var rest := Released(s.slots[Slot(e)], a);
          && Owns(s.slots, Slot(e), a) && rest.page == s.slots[Slot(e)].page == i && Distinct(rest.owners)
          && (forall b :: b in rest.owners <==> b in s.slots[Slot(e)].owners && b != a)
          && s'.slots == s.slots[Slot(e) := rest]
          && s'.swapBits == s.swapBits[Slot(e) := s.swapBits[Slot(e)] && rest.owners != []]
        else s'.slots == s.slots && s'.swapBits == s.swapBits)
    && s' == s.(frames := s'.frames, bits := s'.bits, slots := s'.slots, swapBits := s'.swapBits, tables := s'.tables)
    && s'.tables.Keys == s.tables.Keys
    && (forall b, q :: Has(s'.tables, b, q) <==> Has(s.tables, b, q))
    && (forall b, q :: Has(s.tables, b, q) ==>
          At(s'.tables, b, q) == if b == a && q == i then Dead(At(s.tables, b, q)) else At(s.tables, b, q))
  }

  lemma DropTracks(k: Kind, s: Vm, a: nat, i: nat, s': Vm)
    requires IsDrop(s, a, i, s')
    ensures Tracks(k, if k == Phys then s'.frames else s'.slots, s'.tables)
    ensures SharedIsCow(if k == Phys then s'.frames else s'.slots, s'.tables)
  {
    hide CleanIsStored, OwnersAgree, SlotOwnersAgree, EntriesOk, MarkedIsOwned, ClearIsUnowned;
    var fr := if k == Phys then s.frames else s.slots;
    var fr' := if k == Phys then s'.frames else s'.slots;
    forall g: int, b: nat | Owns(fr', g, b)
      ensures Has(s'.tables, b, fr'[g].page) && Ref(k, At(s'.tables, b, fr'[g].page)) == g
      ensures |fr'[g].owners| >= 2 ==> At(s'.tables, b, fr'[g].page).cow
    {
      assert Owns(fr, g, b);
    }
    forall b: nat, q: nat | Has(s'.tables, b, q) && Ref(k, At(s'.tables, b, q)) >= 0
      ensures Owns(fr', Ref(k, At(s'.tables, b, q)), b) && fr'[Ref(k, At(s'.tables, b, q))].page == q
    {
      assert Owns(fr, Ref(k, At(s.tables, b, q)), b);
    }
    assert Once(fr');
  }

  lemma DropAgree(s: Vm, a: nat, i: nat, s': Vm)
    requires IsDrop(s, a, i, s')
    ensures OwnersAgree(s'.frames, s'.tables) && SlotOwnersAgree(s'.slots, s'.tables)
  {
    forall g: int, b: nat | Owns(s'.frames, g, b)
      ensures Owns(s.frames, g, b) && s'.frames[g].page == s.frames[g].page
      ensures Has(s'.tables, b, s.frames[g].page) && At(s'.tables, b, s.frames[g].page) == At(s.tables, b, s.frames[g].page)
    {
      assert Owns(s.frames, g, b);
    }
    forall g: int, b: nat | Owns(s'.slots, g, b)
      ensures Owns(s.slots, g, b) && s'.slots[g].page == s.slots[g].page
      ensures Has(s'.tables, b, s.slots[g].page) && At(s'.tables, b, s.slots[g].page) == At(s.tables, b, s.slots[g].page)
    {
      assert Owns(s.slots, g, b);
    }
  }

  lemma DropContent(s: Vm, a: nat, i: nat, s': Vm, b: nat, q: nat)
    requires IsDrop(s, a, i, s') && Has(s.tables, b, q)
    ensures EntryOk(At(s'.tables, b, q))
    ensures (b, q) != (a, i) ==>
      && Content(s', At(s'.tables, b, q)) == Content(s, At(s.tables, b, q))
      && Stored(s', At(s'.tables, b, q)) == Stored(s, At(s.tables, b, q))
  {
  }

  lemma DropBits(s: Vm, a: nat, i: nat, s': Vm)
    requires IsDrop(s, a, i, s')
    ensures Sizes(s') && ClearIsUnowned(s'.frames, s'.bits)
    ensures ClearIsUnowned(s'.slots, s'.swapBits) && MarkedIsOwned(s'.slots, s'.swapBits)
    ensures forall f: nat :: Usable(s, f) ==> Usable(s', f)
  {
  }

  lemma DropKeeps(s: Vm, a: nat, i: nat, s': Vm)
    requires IsDrop(s, a, i, s')
    ensures Core(s')
    ensures forall b: nat, q: nat :: Has(s.tables, b, q) && (b, q) != (a, i) ==>
      Content(s', At(s'.tables, b, q)) == Content(s, At(s.tables, b, q))
    ensures forall f: nat :: Usable(s, f) ==> Usable(s', f)
  {
    DropTracks(Phys, s, a, i, s');
    DropTracks(Disk, s, a, i, s');
    DropAgree(s, a, i, s');
    DropBits(s, a, i, s');
    forall b: nat, q: nat | Has(s.tables, b, q)
      ensures EntryOk(At(s'.tables, b, q))
      ensures (b, q) != (a, i) ==>
        && Content(s', At(s'.tables, b, q)) == Content(s, At(s.tables, b, q))
        && Stored(s', At(s'.tables, b, q)) == Stored(s, At(s.tables, b, q))
    {
      DropContent(s, a, i, s', b, q);
    }
  }

  /** s' is s with at most the sole owner of frame `f` no longer copy-on-write. */
  ghost predicate IsUnshare(s: Vm, f: nat, s': Vm) {
    && Core(s) && f < |s.frames|
    && s' == s.(tables := s'.tables) && s'.tables.Keys == s.tables.Keys
    && (forall b, q :: Has(s'.tables, b, q) <==> Has(s.tables, b, q))
    && (forall b, q :: Has(s.tables, b, q) ==>
          At(s'.tables, b, q) ==
          if |s.frames[f].owners| == 1 && b == s.frames[f].owners[0] && q == s.frames[f].page
          then At(s.tables, b, q).(cow := false) else At(s.tables, b, q))
  }

  /** A page that one space maps alone is alone in its slot too. */
  lemma SoleInSlot(s: Vm, f: nat, g: int, b: nat)
    requires Core(s) && f < |s.frames| && s.frames[f].owners == [b]
    requires Owns(s.slots, g, b) && s.slots[g].page == s.frames[f].page
    ensures |s.slots[g].owners| == 1
  {
    assert Owns(s.frames, f, b);
    forall c | c in s.slots[g].owners ensures c == b {
      assert Owns(s.slots, g, c);
      assert SameFrame(At(s.tables, c, s.slots[g].page), At(s.tables, b, s.slots[g].page));
      assert Owns(s.frames, f, c);
    }
    AllSame(s.slots[g].owners, b);
  }

  lemma UnshareCow(s: Vm, f: nat, s': Vm)
    requires IsUnshare(s, f, s')
    ensures SharedIsCow(s.frames, s'.tables) && SharedIsCow(s.slots, s'.tables)
  {
    forall g: int, b: nat | Owns(s.frames, g, b) && |s.frames[g].owners| >= 2
      ensures At(s'.tables, b, s.frames[g].page).cow
    {
      if |s.frames[f].owners| == 1 && b == s.frames[f].owners[0] && s.frames[g].page == s.frames[f].page {
        assert Owns(s.frames, f, b);
      }
    }
    forall g: int, b: nat | Owns(s.slots, g, b) && |s.slots[g].owners| >= 2
      ensures At(s'.tables, b, s.slots[g].page).cow
    {
      if |s.frames[f].owners| == 1 && b == s.frames[f].owners[0] && s.slots[g].page == s.frames[f].page {
        assert s.frames[f].owners == [b];
        SoleInSlot(s, f, g, b);
      }
    }
  }

  lemma UnshareTracks(s: Vm, f: nat, s': Vm)
    requires IsUnshare(s, f, s')
    ensures Tracks(Phys, s.frames, s'.tables) && Tracks(Disk, s.slots, s'.tables)
    ensures OwnersAgree(s.frames, s'.tables) && SlotOwnersAgree(s.slots, s'.tables)
  {
    hide CleanIsStored, SharedIsCow, EntriesOk, MarkedIsOwned, ClearIsUnowned;
    assert forall k, b, q :: Has(s.tables, b, q) ==> Ref(k, At(s'.tables, b, q)) == Ref(k, At(s.tables, b, q));
  }

  lemma UnshareKeeps(s: Vm, f: nat, s': Vm)
    requires IsUnshare(s, f, s')
    ensures Core(s')
    ensures forall b, q :: Has(s.tables, b, q) ==>
      Content(s', At(s'.tables, b, q)) == Content(s, At(s.tables, b, q))
  {
    hide Tracks, SharedIsCow, OwnersAgree, SlotOwnersAgree, MarkedIsOwned, ClearIsUnowned;
    UnshareCow(s, f, s');
    UnshareTracks(s, f, s');
  }

  // Dropping page i with its slot, before the unsharing that the loop does in between.
  ghost function Dropped(s: Vm, a: nat, i: nat): Vm
    requires CanDrop(s, a, i)
  {
    var e := s.tables[a][i];
    var s1 := DropSlot(if e.valid then DropFrame(s, a, e.frame) else s, a, e);
    s1.(tables := Put(s1.tables, a, i, Dead(e)))
  }

  lemma DroppedParts(s: Vm, a: nat, i: nat)
    requires CanDrop(s, a, i)
    ensures var s' := Dropped(s, a, i);
      var e := s.tables[a][i];
      && s' == s.(frames := s'.frames, bits := s'.bits, slots := s'.slots, swapBits := s'.swapBits, tables := s'.tables)
      && s'.frames == (if e.valid then s.frames[e.frame := Released(s.frames[e.frame], a)] else s.frames)
      && s'.bits == (if e.valid then s.bits[e.frame := ReleasedBit(s.frames[e.frame], s.bits[e.frame])] else s.bits)
      && s'.slots == (if e.file == Swap then s.slots[Slot(e) := Released(s.slots[Slot(e)], a)] else s.slots)
      && s'.swapBits ==
           (if e.file == Swap then s.swapBits[Slot(e) := ReleasedBit(s.slots[Slot(e)], s.swapBits[Slot(e)])]
            else s.swapBits)
      && s'.tables == Put(s.tables, a, i, Dead(e))
  {
  }

  lemma DroppedIs(s: Vm, a: nat, i: nat)
    requires Core(s) && CanDrop(s, a, i)
    ensures IsDrop(s, a, i, Dropped(s, a, i))
    ensures forall g, b :: Owns(Dropped(s, a, i).frames, g, b) ==> Owns(s.frames, g, b)
  {
    hide Core, Dropped, Released;
    DroppedParts(s, a, i);
    var e := At(s.tables, a, i);
    if e.valid {
      RefOwned(Phys, s, a, i);
      ReleasedOwners(s.frames[e.frame], a);
    }
    if e.file == Swap {
      RefOwned(Disk, s, a, i);
      ReleasedOwners(s.slots[Slot(e)], a);
    }
  }

  lemma PutsCommute(t: Tables, a: nat, i: nat, e: Entry, b: nat, q: nat, e': Entry)
    requires Has(t, a, i) && Has(t, b, q) && (a != b || i != q)
    ensures Put(Put(t, a, i, e), b, q, e') == Put(Put(t, b, q, e'), a, i, e)
  {
    if a == b {
      assert t[a][i := e][q := e'] == t[a][q := e'][i := e];
    }
  }

  lemma OwnersStay(s: Vm, a: nat, i: nat, f: nat)
    requires Core(s) && CanDrop(s, a, i) && f < |s.frames|
    requires Core(Dropped(s, a, i))
    ensures f < |Dropped(s, a, i).frames| && !At(Dropped(s, a, i).tables, a, i).valid
    ensures var page := Dropped(s, a, i).frames[f].page;
      forall b :: b in Dropped(s, a, i).frames[f].owners ==>
        && Has(Dropped(s, a, i).tables, b, page) && At(Dropped(s, a, i).tables, b, page).valid
        && Has(s.tables, b, page)
  {
    hide Core;
    var mid := Dropped(s, a, i);
    var page := mid.frames[f].page;
    forall b | b in mid.frames[f].owners
      ensures Has(mid.tables, b, page) && At(mid.tables, b, page).valid && Has(s.tables, b, page)
    {
      OwnerMaps(mid, f, b);
    }
  }

  /** The unsharing in the middle of the loop body commutes with the rest of it. */
  lemma DropPageIs(s: Vm, a: nat, i: nat)
    requires Core(s) && CanDrop(s, a, i)
    requires Core(Dropped(s, a, i))
    ensures var f := s.tables[a][0].frame;
      && (forall b :: b in Dropped(s, a, i).frames[f].owners ==>
            b in Dropped(s, a, i).tables && Dropped(s, a, i).frames[f].page < |Dropped(s, a, i).tables[b]|)
      && DropPage(s, a, i) == Unshare(Dropped(s, a, i), f)
  {
    hide Core, Released;
    var mid := Dropped(s, a, i);
    var f := s.tables[a][0].frame;
    var page := mid.frames[f].page;
    OwnersStay(s, a, i, f);
    if |mid.frames[f].owners| == 1 {
      var o := mid.frames[f].owners[0];
      assert o in mid.frames[f].owners;
      PutsCommute(s.tables, a, i, Dead(s.tables[a][i]), o, page, s.tables[o][page].(cow := false));
    }
  }

  lemma OwnerMaps(s: Vm, f: nat, b: nat)
    requires Core(s) && f < |s.frames| && b in s.frames[f].owners
    ensures Has(s.tables, b, s.frames[f].page) && At(s.tables, b, s.frames[f].page).valid
  {
    assert Owns(s.frames, f, b);
  }

  lemma UnshareIs(s: Vm, f: nat)
    requires Core(s) && f < |s.frames|
    requires forall b :: b in s.frames[f].owners ==> b in s.tables && s.frames[f].page < |s.tables[b]|
    ensures IsUnshare(s, f, Unshare(s, f))
  {
  }

  ghost predicate DropPageOk(s: Vm, a: nat, i: nat, s': Vm) {
    && Core(s')
    && s'.tables.Keys == s.tables.Keys
    && (forall b, q :: Has(s'.tables, b, q) <==> Has(s.tables, b, q))
    && (forall b: nat, q: nat :: Has(s.tables, b, q) && (b, q) != (a, i) ==>
          Content(s', At(s'.tables, b, q)) == Content(s, At(s.tables, b, q)))
    && (forall q :: Has(s.tables, a, q) && (q == i || !Sharing(At(s.tables, a, q))) ==> !Sharing(At(s'.tables, a, q)))
    && (forall f: nat :: Usable(s, f) ==> Usable(s', f))
  }

  lemma DropThenUnshare(s: Vm, a: nat, i: nat, mid: Vm, f: nat, s': Vm)
    requires IsDrop(s, a, i, mid) && IsUnshare(mid, f, s')
    ensures DropPageOk(s, a, i, s')
  {
    DropKeeps(s, a, i, mid);
    UnshareKeeps(mid, f, s');
    hide Core, Content, Stored;
    assert forall g: nat :: Usable(mid, g) ==> Usable(s', g);
  }

  lemma DropPageKeeps(s: Vm, a: nat, i: nat)
    requires Core(s) && a in s.tables && i < |s.tables[a]|
    ensures CanDrop(s, a, i)
    ensures DropPageOk(s, a, i, DropPage(s, a, i))
  {
    CanDropAny(s, a, i);
    DroppedIs(s, a, i);
    var mid := Dropped(s, a, i);
    var f := s.tables[a][0].frame;
    hide Core, DropPageOk, IsUnshare, Unshare;
    assert Core(mid) by { DropKeeps(s, a, i, mid); }
    DropPageIs(s, a, i);
    UnshareIs(mid, f);
    DropThenUnshare(s, a, i, mid, f, DropPage(s, a, i));
  }

  lemma CanDropAny(s: Vm, a: nat, i: nat)
    requires Core(s) && a in s.tables && i < |s.tables[a]|
    ensures CanDrop(s, a, i)
  {
    assert Has(s.tables, a, i) && Has(s.tables, a, 0);
    assert EntryOk(At(s.tables, a, 0)) && EntryOk(At(s.tables, a, i));
    forall g, b | 0 <= g < |s.frames| && b in s.frames[g].owners
      ensures b in s.tables && s.frames[g].page < |s.tables[b]|
    {
      assert Owns(s.frames, g, b);
    }
  }

  /** A space that owns nothing any more can leave. */
  lemma RemoveKeeps(s: Vm, a: nat)
    requires Core(s) && a in s.tables
    requires forall q :: Has(s.tables, a, q) ==> !Sharing(At(s.tables, a, q))
    ensures Core(RemoveSpace(s, a))
    ensures forall b, q :: Has(RemoveSpace(s, a).tables, b, q) <==> Has(s.tables, b, q) && b != a
    ensures forall b, q :: Has(s.tables, b, q) && b != a ==>
      At(RemoveSpace(s, a).tables, b, q) == At(s.tables, b, q)
  {
    var s' := RemoveSpace(s, a);
    assert forall b: nat, q: nat :: Has(s'.tables, b, q) <==> Has(s.tables, b, q) && b != a;
    assert forall b: nat, q: nat :: Has(s'.tables, b, q) ==> At(s'.tables, b, q) == At(s.tables, b, q);
    assert forall g: int :: !Owns(s.frames, g, a);
    assert forall g: int :: !Owns(s.slots, g, a);
    assert Tracks(Phys, s.frames, s'.tables);
    assert Tracks(Disk, s.slots, s'.tables);
  }
}
