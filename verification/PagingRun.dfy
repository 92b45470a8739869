// Runs of the paging system. Whatever the kernel does with frames, slots and
// page tables, every address space behaves as a private array of pages.

module PagingRun {
  import opened Paging
  import opened PagingOut
  import opened PagingIn
  import opened PagingCow
  import opened PagingFork

  // ---------------------------------------------------------------- page-in

  lemma InReady(s: Vm, cur: nat, a: nat, p: nat, victim: nat, now: nat)
    requires Core(s) && CanPageIn(s, cur, a, p, victim) && now < NEVER
    ensures LoadOk(Alloc(s, cur, -1, victim), a, p, AllocFrame(s, cur, victim), now)
  {
    AllocKeeps(s, cur, -1, victim);
    AllocKeepsPage(s, cur, -1, victim, a, p);
    var s1 := Alloc(s, cur, -1, victim);
    var e := At(s.tables, a, p);
    assert At(s1.tables, a, p) == e;
    if e.file == Swap {
      assert Owns(s1.slots, Slot(e), a);
      forall b | b in s1.slots[Slot(e)].owners
        ensures b in s1.tables && p < |s1.tables[b]|
      {
        assert Owns(s1.slots, Slot(e), b);
      }
    }
  }

  /** `MemoryManager::pagein` on behalf of space `cur`, with the victim that the
      policy chooses if no frame is free. */
  ghost function PageIn(s: Vm, cur: nat, a: nat, p: nat, victim: nat, now: nat): Vm
    requires Core(s) && CanPageIn(s, cur, a, p, victim) && now < NEVER
  {
    InReady(s, cur, a, p, victim, now);
    Load(Alloc(s, cur, -1, victim), a, p, AllocFrame(s, cur, victim), now)
  }

  /** The same spaces with the same numbers of pages. */
  ghost predicate SameShape(s: Vm, s': Vm) {
    s'.tables.Keys == s.tables.Keys && forall a :: a in s.tables ==> |s'.tables[a]| == |s.tables[a]|
  }

  ghost predicate SameContents(s: Vm, s': Vm) {
    && SameShape(s, s')
    && s'.images == s.images
    && (forall b: nat, q: nat :: Has(s.tables, b, q) ==>
          Content(s', At(s'.tables, b, q)) == Content(s, At(s.tables, b, q)))
  }

  lemma AllocSizes(s: Vm, cur: nat, notMe: int, victim: nat)
    requires Core(s) && CanAlloc(s, cur, notMe, victim)
    ensures SameShape(s, Alloc(s, cur, notMe, victim))
    ensures Alloc(s, cur, notMe, victim).images == s.images
  {
  }

  lemma LoadSizes(s: Vm, a: nat, p: nat, dest: nat, now: nat)
    requires LoadOk(s, a, p, dest, now)
    ensures SameShape(s, Load(s, a, p, dest, now))
    ensures Load(s, a, p, dest, now).images == s.images
    ensures forall f: nat :: Usable(s, f) || f == dest ==> Usable(Load(s, a, p, dest, now), f)
  {
    LoadKeeps(s, a, p, dest, now);
  }

  /** A page-in maps the page it was called for, and changes nobody's contents. */
  lemma PageInKeeps(s: Vm, cur: nat, a: nat, p: nat, victim: nat, now: nat)
    requires Core(s) && CanPageIn(s, cur, a, p, victim) && now < NEVER
    ensures var s' := PageIn(s, cur, a, p, victim, now);
      && Core(s')
      && SameContents(s, s')
      && Has(s'.tables, a, p) && At(s'.tables, a, p).valid
      && (forall f: nat :: Usable(s, f) ==> Usable(s', f))
  {
    hide Core, Load, Alloc, EditAll, Content, Stored, CanPageOut, CanLoad, LoadOk, Sizes;
    InReady(s, cur, a, p, victim, now);
    var s1 := Alloc(s, cur, -1, victim);
    var d := AllocFrame(s, cur, victim);
    AllocKeeps(s, cur, -1, victim);
    AllocSizes(s, cur, -1, victim);
    LoadKeeps(s1, a, p, d, now);
    LoadSizes(s1, a, p, d, now);
    var s' := PageIn(s, cur, a, p, victim, now);
    forall b: nat, q: nat | Has(s.tables, b, q)
      ensures Has(s'.tables, b, q) && Content(s', At(s'.tables, b, q)) == Content(s, At(s.tables, b, q))
    {
      AllocKeepsPage(s, cur, -1, victim, b, q);
      LoadContent(s1, a, p, d, now, b, q);
    }
  }

  // ---------------------------------------------------------------- memory access

  predicate CanAccess(s: Vm, cur: nat, p: nat, writing: bool, victim: nat) {
    && cur in s.tables && p < |s.tables[cur]|
    && s.tables[cur][p].valid
    && (writing && s.tables[cur][p].cow ==> CanAlloc(s, cur, s.tables[cur][p].frame, victim))
  }

  lemma CopyReady(s: Vm, cur: nat, p: nat, victim: nat)
    requires Core(s) && CanAccess(s, cur, p, true, victim) && s.tables[cur][p].cow
    ensures var f := s.tables[cur][p].frame;
      CopyOk(Alloc(s, cur, f, victim), cur, p, AllocFrame(s, cur, victim))
  {
    var f := s.tables[cur][p].frame;
    AllocKeeps(s, cur, f, victim);
    AllocKeepsPage(s, cur, f, victim, cur, p);
    var s1 := Alloc(s, cur, f, victim);
    assert At(s1.tables, cur, p) == At(s.tables, cur, p);
    assert Owns(s1.frames, f, cur);
    forall b | b in s1.frames[f].owners
      ensures b in s1.tables && s1.frames[f].page < |s1.tables[b]|
    {
      assert Owns(s1.frames, f, b);
    }
  }

  /** A translation of an address in page `p` that succeeds (`Machine::Translate`). */
  ghost function Access(s: Vm, cur: nat, p: nat, writing: bool, victim: nat): Vm
    requires Core(s) && CanAccess(s, cur, p, writing, victim)
  {
    var e := s.tables[cur][p];
    if writing && e.cow then
      CopyReady(s, cur, p, victim);
      Copied(Alloc(s, cur, e.frame, victim), cur, p, AllocFrame(s, cur, victim))
    else Mark(s, cur, p, writing)
  }

  /** A page that is mapped behind a page-out was mapped before, with the same entry; any
      other keeps its aging byte. */
  lemma AllocEntry(s: Vm, cur: nat, notMe: int, victim: nat, b: nat, q: nat)
    requires CanAlloc(s, cur, notMe, victim) && Has(Alloc(s, cur, notMe, victim).tables, b, q)
    ensures Has(s.tables, b, q)
    ensures var e, e' := At(s.tables, b, q), At(Alloc(s, cur, notMe, victim).tables, b, q);
      e'.history == e.history && (e'.valid ==> e' == e)
  {
    hide PageOut, CanPageOut;
    if !FindsFree(s, cur) {
      OutTables(s, victim);
    }
  }

  /** What a translation leaves in an entry. `copies`: the entry is that of the page, and the
      page was copied. */
  predicate Accessed(e: Entry, e': Entry, copies: bool) {
    && e.valid && e'.use
    && e'.time == (if copies then 0 else e.time)
    && e'.history == (if copies then 0 else e.history) | 0x80
  }

  predicate NotAccessed(e: Entry, e': Entry) {
    && e'.history == e.history
    && (e'.valid ==> e.valid && e'.use == e.use && e'.time == e.time)
  }

  /** A translation sets the use bit and the first bit of the aging byte of the page, both
      fresh if it is a copy, which is as old as can be; other pages keep their aging
      bytes, and those that stay mapped their use bit and load time. */
  lemma AccessEntry(s: Vm, cur: nat, p: nat, writing: bool, victim: nat, b: nat, q: nat)
    requires Core(s) && CanAccess(s, cur, p, writing, victim)
    requires Has(Access(s, cur, p, writing, victim).tables, b, q)
    ensures Has(s.tables, b, q)
    ensures var e, e' := At(s.tables, b, q), At(Access(s, cur, p, writing, victim).tables, b, q);
      if (b, q) == (cur, p) then Accessed(e, e', writing && e.cow) else NotAccessed(e, e')
  {
    if writing && s.tables[cur][p].cow {
      CopyEntry(s, cur, p, victim, b, q);
    } else {
      MarkIs(s, cur, p, writing);
      hide Core;
    }
  }

  lemma CopyEntry(s: Vm, cur: nat, p: nat, victim: nat, b: nat, q: nat)
    requires Core(s) && CanAccess(s, cur, p, true, victim) && s.tables[cur][p].cow
    requires Has(Access(s, cur, p, true, victim).tables, b, q)
    ensures Has(s.tables, b, q)
    ensures var e, e' := At(s.tables, b, q), At(Access(s, cur, p, true, victim).tables, b, q);
      if (b, q) == (cur, p) then Accessed(e, e', true) else NotAccessed(e, e')
  {
    var f := s.tables[cur][p].frame;
    CopyReady(s, cur, p, victim);
    var s1, d := Alloc(s, cur, f, victim), AllocFrame(s, cur, victim);
    AllocHas(s, cur, f, victim, p);
    CopiedEntryAt(s1, cur, p, d, b, q);
    hide Core, Alloc, CanAlloc, Copied, Accessed, NotAccessed;
    AllocEntry(s, cur, f, victim, b, q);
    assert At(s1.tables, cur, p) == At(s.tables, cur, p);
    ThenCopied(s, s1, b, q, At(Access(s, cur, p, true, victim).tables, b, q), (b, q) == (cur, p));
  }

  lemma AllocHas(s: Vm, cur: nat, f: nat, victim: nat, p: nat)
    requires Core(s) && CanAlloc(s, cur, f, victim) && Has(s.tables, cur, p)
    requires s.tables[cur][p].valid && s.tables[cur][p].frame == f
    ensures Has(Alloc(s, cur, f, victim).tables, cur, p)
    ensures At(Alloc(s, cur, f, victim).tables, cur, p) == At(s.tables, cur, p)
  {
    AllocKeepsPage(s, cur, f, victim, cur, p);
  }

  lemma ThenCopied(s: Vm, s1: Vm, b: nat, q: nat, e': Entry, here: bool)
    requires Has(s.tables, b, q) && Has(s1.tables, b, q)
    requires var e, e1 := At(s.tables, b, q), At(s1.tables, b, q);
      e1.history == e.history && (e1.valid ==> e1 == e)
    requires if here then Accessed(At(s1.tables, b, q), e', true) else NotAccessed(At(s1.tables, b, q), e')
    ensures if here then Accessed(At(s.tables, b, q), e', true) else NotAccessed(At(s.tables, b, q), e')
  {
  }

  lemma CopiedEntryAt(s: Vm, a: nat, p: nat, dest: nat, b: nat, q: nat)
    requires CopyOk(s, a, p, dest) && Has(Copied(s, a, p, dest).tables, b, q)
    ensures Has(s.tables, b, q)
    ensures var e, e' := At(s.tables, b, q), At(Copied(s, a, p, dest).tables, b, q);
      if (b, q) == (a, p) then Accessed(e, e', true) else NotAccessed(e, e')
  {
    CopiedEntry(s, a, p, dest);
    hide Core, Copied, Left;
  }

  lemma CopySizes(s: Vm, a: nat, p: nat, dest: nat, s': Vm)
    requires IsCopy(s, a, p, dest, s')
    ensures SameShape(s, s') && s'.images == s.images
    ensures Has(s'.tables, a, p)
    ensures At(s'.tables, a, p).valid && At(s'.tables, a, p).dirty && !At(s'.tables, a, p).cow
  {
    hide Core;
    SameHas(s.tables, s'.tables);
  }

  lemma SameHas(t: Tables, t': Tables)
    requires t.Keys == t'.Keys && forall b, q :: Has(t', b, q) <==> Has(t, b, q)
    ensures forall a :: a in t ==> |t'[a]| == |t[a]|
  {
    forall a | a in t ensures |t'[a]| == |t[a]| {
      assert Has(t, a, |t'[a]|) <==> Has(t', a, |t'[a]|);
      assert Has(t, a, |t[a]|) <==> Has(t', a, |t[a]|);
    }
  }

  /** Copying a shared page on a write keeps everybody's contents. */
  lemma CopyAccessKeeps(s: Vm, cur: nat, p: nat, victim: nat)
    requires Core(s) && CanAccess(s, cur, p, true, victim) && s.tables[cur][p].cow
    ensures var s' := Access(s, cur, p, true, victim);
      && Core(s')
      && SameContents(s, s')
      && At(s'.tables, cur, p).valid && At(s'.tables, cur, p).dirty && !At(s'.tables, cur, p).cow
      && (forall f: nat :: Usable(s, f) ==> Usable(s', f))
  {
    hide Core, Copied, Alloc, EditAll, Content, Stored, CanPageOut, CanCopy, CopyOk, Sizes, IsCopy;
    var f := s.tables[cur][p].frame;
    var s' := Access(s, cur, p, true, victim);
    CopyReady(s, cur, p, victim);
    AllocKeeps(s, cur, f, victim);
    AllocSizes(s, cur, f, victim);
    var s1 := Alloc(s, cur, f, victim);
    var d := AllocFrame(s, cur, victim);
    CopyKeeps(s1, cur, p, d);
    CopyUsable(s1, cur, p, d, s');
    CopySizes(s1, cur, p, d, s');
    forall b: nat, q: nat | Has(s.tables, b, q)
      ensures Has(s'.tables, b, q) && Content(s', At(s'.tables, b, q)) == Content(s, At(s.tables, b, q))
    {
      AllocKeepsPage(s, cur, f, victim, b, q);
      CopyContent(s1, cur, p, d, s', b, q);
    }
  }

  lemma MarkContents(s: Vm, a: nat, p: nat, writing: bool)
    requires Has(s.tables, a, p)
    ensures SameContents(s, Mark(s, a, p, writing))
    ensures forall f: nat :: Usable(s, f) ==> Usable(Mark(s, a, p, writing), f)
  {
  }

  /** A translation changes nobody's contents, and leaves a page that is written to
      mapped, dirty and unshared. */
  lemma AccessKeeps(s: Vm, cur: nat, p: nat, writing: bool, victim: nat)
    requires Core(s) && CanAccess(s, cur, p, writing, victim)
    ensures var s' := Access(s, cur, p, writing, victim);
      && Core(s')
      && SameContents(s, s')
      && At(s'.tables, cur, p).valid
      && (writing ==> At(s'.tables, cur, p).dirty && !At(s'.tables, cur, p).cow)
      && (forall f: nat :: Usable(s, f) ==> Usable(s', f))
  {
    hide Core, SameContents, Copied, Alloc, CanAlloc, Usable;
    if writing && s.tables[cur][p].cow {
      CopyAccessKeeps(s, cur, p, victim);
    } else {
      MarkKeeps(s, cur, p, writing);
      MarkContents(s, cur, p, writing);
    }
  }

  // ---------------------------------------------------------------- fork

  lemma CanShareAny(s: Vm, cur: nat, child: nat)
    requires Core(s) && cur in s.tables && child in s.tables && cur != child
    requires |s.tables[child]| < |s.tables[cur]|
    ensures CanShare(s, cur, child)
  {
    var e := At(s.tables, cur, |s.tables[child]|);
  }

  lemma ShareStep(s: Vm, cur: nat, child: nat)
    requires Core(s) && cur in s.tables && child in s.tables && cur != child
    requires |s.tables[child]| < |s.tables[cur]|
    ensures CanShare(s, cur, child)
    ensures var s' := SharePage(s, cur, child);
      && Core(s') && s'.tables.Keys == s.tables.Keys && s'.images == s.images
      && |s'.tables[child]| == |s.tables[child]| + 1
      && (forall a :: a in s.tables && a != child ==> |s'.tables[a]| == |s.tables[a]|)
  {
    hide Core, CanShare, Sizes;
    CanShareAny(s, cur, child);
    ShareKeeps(s, cur, child);
  }

  /** The first `n` passes of the loop of `CopyFrom`. */
  ghost function SharePages(s: Vm, cur: nat, child: nat, n: nat): (s': Vm)
    requires Core(s) && cur in s.tables && child in s.tables && cur != child
    requires s.tables[child] == [] && n <= |s.tables[cur]|
    ensures Core(s') && s'.tables.Keys == s.tables.Keys && s'.images == s.images
    ensures |s'.tables[child]| == n
    ensures forall a :: a in s.tables && a != child ==> |s'.tables[a]| == |s.tables[a]|
    decreases n
  {
    if n == 0 then s
    else
      var s1 := SharePages(s, cur, child, n - 1);
      ShareStep(s1, cur, child);
      SharePage(s1, cur, child)
  }

  ghost predicate SameContentsOf(s: Vm, b: nat, q: nat, s': Vm, b': nat, q': nat) {
    && Has(s.tables, b, q) && Has(s'.tables, b', q')
    && Content(s', At(s'.tables, b', q')) == Content(s, At(s.tables, b, q))
  }

  lemma ShareStepContent(s: Vm, cur: nat, child: nat)
    requires Core(s) && CanShare(s, cur, child)
    ensures var s' := SharePage(s, cur, child);
      var i := |s.tables[child]|;
      && (forall b: nat, q: nat :: Has(s.tables, b, q) ==> SameContentsOf(s, b, q, s', b, q))
      && SameContentsOf(s, cur, i, s', child, i)
      && (forall f: nat :: Usable(s, f) ==> Usable(s', f))
  {
    hide Core, Content, Stored, Usable, Sizes;
    ShareKeeps(s, cur, child);
    var s' := SharePage(s, cur, child);
    var i := |s.tables[child]|;
    forall b: nat, q: nat | Has(s.tables, b, q) ensures SameContentsOf(s, b, q, s', b, q) {
      ShareContent(s, cur, child, i, s', b, q);
    }
    ShareContent(s, cur, child, i, s', child, i);
  }

  lemma {:induction false} SharePagesContent(s: Vm, cur: nat, child: nat, n: nat)
    requires Core(s) && cur in s.tables && child in s.tables && cur != child
    requires s.tables[child] == [] && n <= |s.tables[cur]|
    ensures var s' := SharePages(s, cur, child, n);
      && (forall b: nat, q: nat :: Has(s.tables, b, q) ==> SameContentsOf(s, b, q, s', b, q))
      && (forall q: nat :: q < n ==> SameContentsOf(s, cur, q, s', child, q))
      && (forall f: nat :: Usable(s, f) ==> Usable(s', f))
    decreases n
  {
    hide Core, Content, Usable, SharePage, CanShare;
    if n > 0 {
      SharePagesContent(s, cur, child, n - 1);
      var s1 := SharePages(s, cur, child, n - 1);
      ShareStep(s1, cur, child);
      ShareStepContent(s1, cur, child);
      var s' := SharePage(s1, cur, child);
      forall b: nat, q: nat | Has(s.tables, b, q) ensures SameContentsOf(s, b, q, s', b, q) {
        assert SameContentsOf(s, b, q, s1, b, q);
        assert SameContentsOf(s1, b, q, s', b, q);
      }
      forall q: nat | q < n ensures SameContentsOf(s, cur, q, s', child, q) {
        assert Has(s.tables, cur, q);
        if q < n - 1 {
          assert SameContentsOf(s, cur, q, s1, child, q);
          assert SameContentsOf(s1, child, q, s', child, q);
        } else {
          assert SameContentsOf(s, cur, q, s1, cur, q);
        }
      }
    }
  }

  /** `AddrSpace::CopyFrom` for a new space. */
  ghost function ForkSpace(s: Vm, cur: nat, child: nat): Vm
    requires Core(s) && cur in s.tables && child !in s.tables
  {
    AddKeeps(s, child, []);
    SharePages(AddSpace(s, child, []), cur, child, |s.tables[cur]|)
  }

  /** Fork changes nobody's contents, and the child's are the parent's. */
  lemma ForkKeeps(s: Vm, cur: nat, child: nat)
    requires Core(s) && cur in s.tables && child !in s.tables
    ensures var s' := ForkSpace(s, cur, child);
      && Core(s')
      && s'.tables.Keys == s.tables.Keys + {child} && s'.images == s.images
      && |s'.tables[child]| == |s.tables[cur]|
      && (forall a :: a in s.tables ==> |s'.tables[a]| == |s.tables[a]|)
      && (forall b: nat, q: nat :: Has(s.tables, b, q) ==> SameContentsOf(s, b, q, s', b, q))
      && (forall q: nat :: q < |s.tables[cur]| ==> SameContentsOf(s, cur, q, s', child, q))
      && (forall f: nat :: Usable(s, f) ==> Usable(s', f))
  {
    hide Core, SharePages, Stored, Sizes;
    AddKeeps(s, child, []);
    var s1 := AddSpace(s, child, []);
    var n := |s.tables[cur]|;
    SharePagesContent(s1, cur, child, n);
    var s' := ForkSpace(s, cur, child);
    forall b: nat, q: nat | Has(s.tables, b, q)
      ensures SameContentsOf(s, b, q, s', b, q)
    {
      assert SameContentsOf(s, b, q, s1, b, q) by { SameStored(s, s1, At(s.tables, b, q)); }
      assert SameContentsOf(s1, b, q, s', b, q);
    }
    forall f: nat | Usable(s, f) ensures Usable(s', f) {
      assert Usable(s1, f);
    }
    forall q: nat | q < n ensures SameContentsOf(s, cur, q, s', child, q) {
      assert SameContentsOf(s, cur, q, s1, cur, q) by { SameStored(s, s1, At(s.tables, cur, q)); }
      assert SameContentsOf(s1, cur, q, s', child, q);
    }
  }

  lemma SameStored(s: Vm, s': Vm, e: Entry)
    requires s'.swap == s.swap && s'.images == s.images && s'.mem == s.mem
    ensures Content(s', e) == Content(s, e) && Stored(s', e) == Stored(s, e)
  {
  }

  // ---------------------------------------------------------------- exit

  ghost predicate Unshared(t: Tables, a: nat, q: nat) {
    Has(t, a, q) && !Sharing(At(t, a, q))
  }

  ghost predicate DropStepOk(s: Vm, a: nat, i: nat, s': Vm) {
    && Core(s') && SameShape(s, s') && s'.images == s.images
    && Unshared(s'.tables, a, i)
    && (forall b: nat, q: nat :: Has(s.tables, b, q) && b != a ==> SameContentsOf(s, b, q, s', b, q))
    && (forall q :: Unshared(s.tables, a, q) ==> Unshared(s'.tables, a, q))
    && (forall f: nat :: Usable(s, f) ==> Usable(s', f))
  }

  lemma DropStep(s: Vm, a: nat, i: nat)
    requires Core(s) && a in s.tables && i < |s.tables[a]|
    ensures CanDrop(s, a, i)
    ensures DropStepOk(s, a, i, DropPage(s, a, i))
  {
    DropPageKeeps(s, a, i);
    hide Core, CanDrop, Content, Stored, Sizes, Usable;
    DropImages(s, a, i);
    SameHas(s.tables, DropPage(s, a, i).tables);
  }

  lemma DropImages(s: Vm, a: nat, i: nat)
    requires CanDrop(s, a, i)
    ensures DropPage(s, a, i).images == s.images
  {
  }

  /** The first `n` passes of the loop of `~AddrSpace`. Each of them can be taken,
      as DropPagesCore shows. */
  ghost function DropPages(s: Vm, a: nat, n: nat): Vm
    decreases n
  {
    if n == 0 then s
    else
      var s1 := DropPages(s, a, n - 1);
      if CanDrop(s1, a, n - 1) then DropPage(s1, a, n - 1) else s1
  }

  lemma {:induction false} DropPagesCore(s: Vm, a: nat, n: nat)
    requires Core(s) && a in s.tables && n <= |s.tables[a]|
    ensures Core(DropPages(s, a, n)) && SameShape(s, DropPages(s, a, n))
    ensures DropPages(s, a, n).images == s.images
    ensures n > 0 ==> CanDrop(DropPages(s, a, n - 1), a, n - 1)
    decreases n
  {
    hide Core, CanDrop, DropPage;
    if n > 0 {
      DropPagesCore(s, a, n - 1);
      DropStep(DropPages(s, a, n - 1), a, n - 1);
    }
  }

  lemma {:induction false} DropPagesContent(s: Vm, a: nat, n: nat)
    requires Core(s) && a in s.tables && n <= |s.tables[a]|
    ensures forall b: nat, q: nat :: Has(s.tables, b, q) && b != a ==>
      SameContentsOf(s, b, q, DropPages(s, a, n), b, q)
    ensures forall q: nat :: q < n ==> Unshared(DropPages(s, a, n).tables, a, q)
    ensures forall f: nat :: Usable(s, f) ==> Usable(DropPages(s, a, n), f)
    decreases n
  {
    hide Core, Content, Usable, DropPage, CanDrop;
    if n > 0 {
      DropPagesContent(s, a, n - 1);
      DropPagesCore(s, a, n - 1);
      var s1 := DropPages(s, a, n - 1);
      DropStep(s1, a, n - 1);
      var s' := DropPage(s1, a, n - 1);
      forall b: nat, q: nat | Has(s.tables, b, q) && b != a ensures SameContentsOf(s, b, q, s', b, q) {
        assert SameContentsOf(s, b, q, s1, b, q);
        assert SameContentsOf(s1, b, q, s', b, q);
      }
      forall q: nat | q < n ensures Unshared(s'.tables, a, q) {
        assert q < n - 1 ==> Unshared(s1.tables, a, q);
      }
    }
  }

  /** `AddrSpace::~AddrSpace`. */
  ghost function ExitSpace(s: Vm, a: nat): Vm
    requires Core(s) && a in s.tables
  {
    RemoveSpace(DropPages(s, a, |s.tables[a]|), a)
  }

  /** Exit changes no other space's contents. */
  lemma ExitKeeps(s: Vm, a: nat)
    requires Core(s) && a in s.tables
    ensures var s' := ExitSpace(s, a);
      && Core(s')
      && s'.tables.Keys == s.tables.Keys - {a} && s'.images == s.images
      && (forall b :: b in s'.tables ==> |s'.tables[b]| == |s.tables[b]|)
      && (forall b: nat, q: nat :: Has(s.tables, b, q) && b != a ==> SameContentsOf(s, b, q, s', b, q))
      && (forall f: nat :: Usable(s, f) ==> Usable(s', f))
  {
    hide Core, DropPages, Stored, Sizes, Sharing;
    var n := |s.tables[a]|;
    DropPagesContent(s, a, n);
    DropPagesCore(s, a, n);
    var s1 := DropPages(s, a, n);
    forall q: nat | Has(s1.tables, a, q) ensures !Sharing(At(s1.tables, a, q)) {
      assert Unshared(s1.tables, a, q);
    }
    RemoveKeeps(s1, a);
    var s' := ExitSpace(s, a);
    forall b: nat, q: nat | Has(s.tables, b, q) && b != a
      ensures SameContentsOf(s, b, q, s', b, q)
    {
      assert SameContentsOf(s, b, q, s1, b, q);
      assert SameContentsOf(s1, b, q, s', b, q) by { SameStored(s1, s', At(s1.tables, b, q)); }
    }
  }
}
