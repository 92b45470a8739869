// The kernel's paging code: the loops of the memory manager, the swap manager and
// the address spaces, each proved to take the step that Paging.dfy says.

module PagingKernel {
  import opened Sequences
  import opened Options
  import opened FreeBits
  import opened Paging
  import opened PagingOut
  import opened PagingIn
  import opened PagingCow
  import opened PagingFork
  import opened PagingRun
  import opened PagingTheorem
  import opened PagingPolicy

  datatype Policy = Dumb | Fifo | Lru | SecondChance

  /** The loop of `BitMap::Find`. */
  method FindClear(bits: seq<bool>) returns (r: int)
    ensures r >= 0 <==> FirstClear(bits, 0) < |bits|
    ensures r >= 0 ==> r == FirstClear(bits, 0)
  {
    var i := 0;
    while i < |bits|
      invariant 0 <= i <= |bits| && FirstClear(bits, 0) == FirstClear(bits, i)
    {
      if !bits[i] {
        return i;
      }
      i := i + 1;
    }
    r := -1;
  }

  class Kernel {
    var mem: seq<Page>
    var frames: seq<Frame>
    var bits: seq<bool>
    var swap: seq<Page>
    var slots: seq<Frame>
    var swapBits: seq<bool>
    var tables: Tables
    var wss: map<nat, int>
    var images: map<nat, seq<bv8>>
    var probe: nat
    const policy: Policy

    ghost function S(): Vm
      reads this
    {
      Vm(mem, frames, bits, swap, slots, swapBits, tables, wss, images)
    }

    ghost predicate Valid()
      reads this
    {
      Inv(S()) && probe < NUM_PHYS_PAGES
    }

    /** `MemoryManager::MemoryManager` and `SwapManager::SwapManager`. */
    constructor (policy: Policy, images: map<nat, seq<bv8>>)
      ensures Valid() && Boot(S()) && this.policy == policy && this.images == images && probe == 87
    {
      this.policy, this.images := policy, images;
      mem := seq(NUM_PHYS_PAGES, _ => Zeros());
      frames := seq(NUM_PHYS_PAGES, _ => Frame([], 0));
      bits := seq(NUM_PHYS_PAGES, _ => false);
      swap := seq(NUM_SWAP_PAGES, _ => Zeros());
      slots := seq(NUM_SWAP_PAGES, _ => Frame([], 0));
      swapBits := seq(NUM_SWAP_PAGES, _ => false);
      tables, wss := map[], map[];
      probe := 87;
      new;
      BootInv(S());
    }

    // -------------------------------------------------------------- small loops

    /** `NumPhysPagesOwned` and `TooManyFrames`. */
    method TooManyFrames(a: nat) returns (r: bool)
      requires a in tables && a in wss
      ensures r == TooMany(S(), a)
    {
      var t := tables[a];
      var num := 0;
      var i := 0;
      while i < |t|
        invariant 0 <= i <= |t| && num == Valids(t[..i])
      {
        assert t[..i + 1][..i] == t[..i];
        if t[i].valid {
          num := num + 1;
        }
        i := i + 1;
      }
      assert t[..i] == t;
      r := num > wss[a];
    }

    /** `BitMap::Find` on the page flags, behind the working-set test. */
    method GetNextFreePage(cur: nat) returns (f: int)
      requires cur in tables && cur in wss
      modifies `bits
      ensures f >= 0 <==> FindsFree(old(S()), cur)
      ensures f >= 0 <==> Valids(tables[cur]) <= wss[cur] && exists i :: 0 <= i < |old(bits)| && !old(bits)[i]
      ensures f >= 0 ==> f == FirstClear(old(bits), 0) && bits == old(bits)[f := true]
      ensures f < 0 ==> bits == old(bits)
    {
      var tooMany := TooManyFrames(cur);
      if tooMany {
        return -1;
      }
      f := FindClear(bits);
      if f >= 0 {
        bits := bits[f := true];
      }
    }

    /** `SwapManager::get_next_free_frame`. */
    method GetNextFreeSlot() returns (k: int)
      modifies `swapBits
      ensures k >= 0 <==> FirstClear(old(swapBits), 0) < |old(swapBits)|
      ensures k >= 0 ==> k == FirstClear(old(swapBits), 0) && swapBits == old(swapBits)[k := true]
      ensures k < 0 ==> swapBits == old(swapBits)
    {
      k := FindClear(swapBits);
      if k >= 0 {
        swapBits := swapBits[k := true];
      }
    }

    /** The loops over the owners of a frame. */
    method EditOwners(owners: seq<nat>, p: nat, ed: Edit)
      requires forall a :: a in owners ==> a in tables && p < |tables[a]|
      modifies `tables
      ensures tables == EditAll(old(tables), owners, p, ed)
    {
      var i := 0;
      while i < |owners|
        invariant 0 <= i <= |owners|
        invariant tables == EditAll(old(tables), owners[..i], p, ed)
      {
        var a := owners[i];
        assert owners[..i + 1][..i] == owners[..i];
        tables := tables[a := tables[a][p := Apply(ed, tables[a][p])]];
        i := i + 1;
      }
      assert owners[..i] == owners;
    }

    /** The copying loop of `release_page` and `release_frame`. */
    method OwnersWithout(owners: seq<nat>, a: nat) returns (r: seq<nat>)
      ensures r == Without(owners, a)
    {
      r := [];
      var i := 0;
      while i < |owners|
        invariant 0 <= i <= |owners| && r == Without(owners[..i], a)
      {
        assert owners[..i + 1][..i] == owners[..i];
        if owners[i] != a {
          r := r + [owners[i]];
        }
        i := i + 1;
      }
      assert owners[..i] == owners;
    }

    /** `MemoryManager::release_page`. */
    method ReleasePage(f: nat, a: nat)
      requires f < |frames| && f < |bits|
      modifies `frames, `bits
      ensures S() == DropFrame(old(S()), a, f)
    {
      if |frames[f].owners| == 1 {
        bits := bits[f := false];
        frames := frames[f := frames[f].(owners := [])];
      } else {
        var rest := OwnersWithout(frames[f].owners, a);
        frames := frames[f := frames[f].(owners := rest)];
        assert bits == bits[f := bits[f]];
      }
    }

    /** `SwapManager::release_frame`, called for an entry that is backed by swap. */
    method ReleaseSlot(e: Entry, a: nat)
      requires e.file == Swap && Slot(e) < |slots| && Slot(e) < |swapBits|
      modifies `slots, `swapBits
      ensures S() == DropSlot(old(S()), a, e)
    {
      var k := Slot(e);
      if |slots[k].owners| == 1 {
        swapBits := swapBits[k := false];
        slots := slots[k := slots[k].(owners := [])];
      } else {
        var rest := OwnersWithout(slots[k].owners, a);
        slots := slots[k := slots[k].(owners := rest)];
        assert swapBits == swapBits[k := swapBits[k]];
      }
    }

    // -------------------------------------------------------------- pageout

    /** The first half of `pageout`: a dirty page goes to its slot, or to a new one; a
        clean page that will be read from its file again stops being shared. */
    method WriteOut(victim: nat) returns (ok: bool)
      requires CanWriteOut(S(), victim)
      modifies `tables, `swap, `swapBits
      ensures ok == !(NeedsSlot(old(S()), victim) && FirstClear(old(swapBits), 0) == |old(swapBits)|)
      ensures S() == if ok then WrittenOut(old(S()), victim) else old(S())
    {
      hide EditAll, FirstClear;
      var fr := frames[victim];
      var local := tables[fr.owners[0]][fr.page];
      if local.dirty {
        if local.file != Swap {
          var k := GetNextFreeSlot();
          if k < 0 {
            return false;
          }
          EditOwners(fr.owners, fr.page, ToSlot(k));
          EditFirst(old(tables), fr.owners, fr.page);
          local := tables[fr.owners[0]][fr.page];
        }
        swap := swap[Slot(local) := mem[victim]];
      } else if local.file != Swap {
        EditOwners(fr.owners, fr.page, Private);
      }
      ok := true;
    }

    /** The second half of `pageout`: the slot, if there is one, gets the owner list;
        all owners lose the mapping. */
    method Detach(victim: nat)
      requires CanDetach(S(), victim)
      modifies `tables, `frames, `slots
      ensures S() == Detached(old(S()), victim)
    {
      var fr := frames[victim];
      var local := tables[fr.owners[0]][fr.page];
      if local.file == Swap {
        slots := slots[Slot(local) := fr];
      }
      EditOwners(fr.owners, fr.page, Unmap);
      frames := frames[victim := fr.(owners := [])];
    }

    /** `MemoryManager::pageout`. It fails, where the source stops at an assertion,
        exactly when it needs a swap slot and there is none. */
    method PageOutFrame(victim: nat) returns (ok: bool)
      requires Core(S()) && Mapped(S(), victim)
      modifies `tables, `frames, `swap, `slots, `swapBits
      ensures ok == CanPageOut(old(S()), victim)
      ensures ok <==> !(NeedsSlot(old(S()), victim) && FirstClear(old(swapBits), 0) == |old(swapBits)|)
      ensures ok ==> S() == PageOut(old(S()), victim)
      ensures !ok ==> S() == old(S())
      ensures var e := Rep(old(S()), victim);
        && (ok <==> !(e.dirty && e.file != Swap && forall i :: 0 <= i < |old(swapBits)| ==> old(swapBits)[i]))
        && (ok && !e.dirty ==> swap == old(swap) && swapBits == old(swapBits))
        && (ok ==> frames[victim].owners == [] && mem == old(mem) && bits == old(bits))
    {
      hide Core, CanPageOut, PageOut, CanWriteOut, CanDetach, WrittenOut, Detached;
      RepSlot(S(), victim);
      OutUnlessFull(S(), victim);
      OutLeaves(S(), victim);
      ghost var s := S();
      ok := WriteOut(victim);
      if ok {
        OutHalves(s, victim);
        Detach(victim);
      }
    }

    // -------------------------------------------------------------- choosing a victim

    /** The choice among the pages of `cur` itself, by its policy; `f` is some frame of it
        that may be taken. */
    method OwnVictim(cur: nat, notMe: int, ghost f: nat) returns (v: nat)
      requires Valid() && cur in tables && policy != Dumb
      requires f != notMe && f < |frames| && cur in frames[f].owners
      modifies `tables
      ensures Valid() && SameButUse(old(S()), S())
      ensures v != notMe && Mapped(S(), v) && cur in frames[v].owners
      ensures policy == Fifo ==> S() == old(S()) && FifoChoice(old(tables)[cur], notMe, v)
      ensures policy == Lru ==> S() == old(S()) && LruChoice(old(tables)[cur], notMe, v)
      ensures policy == SecondChance ==>
        ScChoice(old(tables)[cur], notMe, v) && S() == Scanned(old(S()), cur, notMe)
    {
      ghost var s := S();
      var t := tables[cur];
      TimesOk(s, cur);
      UseSelf(s);
      CandidateAt(s, cur, f, notMe);
      hide Core, EnoughUsable, SameButUse, Cleared;
      var victim: int;
      ghost var best: int;
      if policy == Fifo {
        victim, best := FifoVictim(t, notMe);
      } else if policy == Lru {
        victim, best := LruVictim(t, notMe);
        LruTakesAll(t);
      } else {
        var t';
        victim, t', best := SecondChanceVictim(t, notMe);
        tables := tables[cur := t'];
        ScanKeeps(s, cur, notMe);
      }
      v := victim;
      BestMapped(s, cur, best);
    }

    /** `MemoryManager::Choose_Victim`, called when no frame is free for `cur`. Whatever
        the policy, it ends with an owned frame other than `notMe`. */
    method ChooseVictim(cur: nat, notMe: int) returns (v: nat)
      requires Valid() && cur in tables && cur in wss && !FindsFree(S(), cur)
      modifies `tables, `probe
      ensures Valid() && SameButUse(old(S()), S()) && Chosen(old(S()), S(), cur, notMe)
      ensures v != notMe && Mapped(S(), v)
      ensures policy == Dumb || !TooMany(old(S()), cur) ==>
        S() == old(S()) && probe == v && FirstOnProbe(frames, old(probe), notMe, v)
      ensures TooMany(old(S()), cur) ==>
        && (policy == Fifo ==> S() == old(S()) && FifoChoice(old(tables)[cur], notMe, v))
        && (policy == Lru ==> S() == old(S()) && LruChoice(old(tables)[cur], notMe, v))
        && (policy == SecondChance ==>
              ScChoice(old(tables)[cur], notMe, v) && S() == Scanned(old(S()), cur, notMe))
      ensures TooMany(old(S()), cur) && policy != Dumb ==> cur in frames[v].owners
    {
      ghost var s := S();
      ghost var f := VictimExists(s, cur, notMe);
      UseSelf(s);
      hide Core, EnoughUsable, SameButUse, TooMany, FindsFree, FifoChoice, LruChoice, ScChoice, Cleared;
      var tooMany := TooManyFrames(cur);
      if policy == Dumb || !tooMany {
        ghost var steps;
        FrameCount(s);
        assert Eligible(frames, f, notMe);
        v, steps := DumbVictim(frames, probe, notMe);
        probe := v;
        OwnedMapped(s, v);
      } else {
        v := OwnVictim(cur, notMe, f);
      }
    }

    // -------------------------------------------------------------- pagein

    /** Get a frame for `cur`, by paging somebody out if there is no free one: the
        opening of `pagein` and of `duplicatePage`. */
    method AllocateFrame(cur: nat, notMe: int) returns (dest: int, ghost mid: Vm, ghost victim: nat)
      requires Valid() && cur in tables && cur in wss
      modifies `tables, `frames, `bits, `swap, `slots, `swapBits, `probe
      ensures Inv(mid) && SameButUse(old(S()), mid) && Chosen(old(S()), mid, cur, notMe)
      ensures dest < 0 ==> S() == mid && FirstClear(mid.swapBits, 0) == |mid.swapBits|
      ensures dest >= 0 ==> CanAlloc(mid, cur, notMe, victim)
      ensures dest >= 0 ==> dest == AllocFrame(mid, cur, victim) && S() == Alloc(mid, cur, notMe, victim)
      ensures probe < NUM_PHYS_PAGES
    {
      mid, victim := S(), 0;
      UseSelf(mid);
      hide Core, EnoughUsable, SameButUse, CanPageOut, PageOut, TooMany, Mapped, FirstOnProbe, FifoChoice, LruChoice, ScChoice, Scanned;
      dest := GetNextFreePage(cur);
      if dest < 0 {
        assert S() == mid;
        var v := ChooseVictim(cur, notMe);
        mid, victim := S(), v;
        StillFull(old(S()), mid, cur);
        var ok := PageOutFrame(v);
        dest := if ok then v else -1;
      }
    }

    /** The rest of `pagein`: fill the frame, give it its owner list and map it. */
    method LoadPage(a: nat, p: nat, dest: nat, now: nat)
      requires CanLoad(S(), a, p, dest)
      modifies `mem, `frames, `tables
      ensures S() == Load(old(S()), a, p, dest, now)
    {
      var local := tables[a][p];
      if !local.zero {
        if local.file == Swap {
          mem := mem[dest := swap[Slot(local)]];
        } else {
          mem := mem[dest := images[local.file.id][local.offset..local.offset + PAGE_SIZE]];
        }
      } else {
        mem := mem[dest := Zeros()];
      }
      if local.file == Swap {
        frames := frames[dest := slots[Slot(local)]];
      } else {
        frames := frames[dest := Frame([a], p)];
        tables := tables[a := tables[a][p := local.(cow := false)]];
      }
      EditOwners(frames[dest].owners, p, MapTo(dest, now));
    }

    /** `MemoryManager::pagein`. Unless the page-out runs out of swap slots, the page is
        mapped afterwards; nobody's memory changes either way. */
    method PageInPage(cur: nat, a: nat, p: nat, now: nat) returns (ok: bool, ghost mid: Vm, ghost victim: nat)
      requires Valid() && cur in tables && now < NEVER
      requires a in tables && p < |tables[a]| && !tables[a][p].valid && Stored(S(), tables[a][p]).Some?
      modifies this
      ensures SameButUse(old(S()), mid) && Chosen(old(S()), mid, cur, -1)
      ensures !ok ==> S() == mid && FirstClear(old(swapBits), 0) == |old(swapBits)|
      ensures ok ==> Core(mid) && CanPageIn(mid, cur, a, p, victim) && S() == PageIn(mid, cur, a, p, victim, now)
      ensures Leads(old(S()), [Choosing(old(S()), mid, cur, -1)] + if ok then [Fault(cur, a, p, victim, now)] else [], S())
      ensures Valid() && Abs(S()) == Abs(old(S()))
      ensures ok ==> a in tables && p < |tables[a]| && tables[a][p].valid
    {
      ghost var s := S();
      hide Inv, Core, SameButUse, PageIn, TooMany, Alloc, CanAlloc, Load, CanLoad, AllocFrame, Abs, Stored;
      InvLimit(s, cur);
      var dest;
      dest, mid, victim := AllocateFrame(cur, -1);
      hide Leads;
      ChooseLeads(s, mid, cur, -1);
      assert [Choosing(s, mid, cur, -1)] + [] == [Choosing(s, mid, cur, -1)];
      if dest < 0 {
        UseAbs(s, mid);
        return false, mid, victim;
      }
      PageInEnds(s, mid, cur, a, p, victim, now);
      ThenLeads(s, mid, cur, -1, Fault(cur, a, p, victim, now));
      LoadPage(a, p, dest, now);
      ok := true;
    }

    // -------------------------------------------------------------- copy-on-write

    /** `MemoryManager::add_frame_owner`. The preconditions are its assertions, and that its
        range check, which lets the number of frames itself pass, is not put to that test. */
    method AddFrameOwner(f: int, a: nat, p: nat) returns (r: int)
      requires f != |frames|
      requires 0 <= f < |frames| ==>
        a !in frames[f].owners && (frames[f].owners != [] ==> frames[f].page == p)
      modifies `frames
      ensures r == if 0 <= f < |old(frames)| then 0 else -1
      ensures frames == if r == 0 then old(frames)[f := Owned(old(frames)[f], a, p)] else old(frames)
    {
      if f > |frames| || f < 0 {
        return -1;
      }
      var newOwners: seq<nat> := [];
      var i := 0;
      while i < |frames[f].owners|
        invariant 0 <= i <= |frames[f].owners| && newOwners == frames[f].owners[..i]
      {
        newOwners := newOwners + [frames[f].owners[i]];
        i := i + 1;
      }
      assert newOwners == frames[f].owners;
      frames := frames[f := Frame(newOwners + [a], p)];
      r := 0;
    }

    /** `AddrSpace::duplicatePage`, once it has a frame. */
    method CopyPage(a: nat, p: nat, dest: nat)
      requires CanCopy(S(), a, p, dest) && frames[dest].owners == []
      modifies `mem, `frames, `bits, `slots, `swapBits, `tables
      ensures S() == Copy(old(S()), a, p, dest)
    {
      var local := tables[a][p];
      var src := local.frame;
      var added := AddFrameOwner(dest, a, p);
      mem := mem[dest := mem[src]];
      ReleasePage(src, a);
      if local.file == Swap {
        ReleaseSlot(local, a);
      }
      ghost var s2 := S();
      assert forall b :: b in frames[src].owners ==> b in old(frames)[src].owners;
      if |frames[src].owners| == 1 {
        var o := frames[src].owners[0];
        assert o in frames[src].owners;
        tables := tables[o := tables[o][frames[src].page := tables[o][frames[src].page].(cow := false)]];
      }
      assert S() == Unshare(s2, src);
      var now := tables[a][p];
      tables := tables[a := tables[a][p := now.(
        file := if local.file == Swap then NoFile else now.file,
        cow := false, valid := true, frame := dest, use := false, time := 0, history := 0)]];
    }

    // -------------------------------------------------------------- translation

    /** Translation of an address in a mapped page: copy the page first if it is shared
        and written to, then set the bits. */
    method AccessPage(cur: nat, vpn: nat, writing: bool) returns (ok: bool, ghost mid: Vm, ghost victim: nat)
      requires Valid() && Has(tables, cur, vpn) && tables[cur][vpn].valid
      modifies `mem, `frames, `bits, `swap, `slots, `swapBits, `tables, `probe
      ensures !ok ==> S() == mid
      ensures !writing ==> mid == old(S()) && victim == 0
      ensures !ok ==> writing && old(tables)[cur][vpn].cow && FirstClear(old(swapBits), 0) == |old(swapBits)|
      ensures Inv(mid) && SameButUse(old(S()), mid) && Core(mid)
      ensures Chosen(old(S()), mid, cur, FrameOf(old(tables), cur, vpn))
      ensures ok ==> CanAccess(mid, cur, vpn, writing, victim) && S() == Access(mid, cur, vpn, writing, victim)
      ensures probe < NUM_PHYS_PAGES
    {
      hide Inv, Core, SameButUse, CanAlloc, Alloc, AllocFrame, Copy, CanCopy, Copied, Touch, Access, CanAccess;
      ghost var s := S();
      InvSelf(s);
      mid, victim := s, 0;
      if tables[cur][vpn].cow && writing {
        InvLimit(s, cur);
        var dest;
        dest, mid, victim := AllocateFrame(cur, tables[cur][vpn].frame);
        InvSelf(mid);
        UseSwap(s, mid);
        if dest < 0 {
          return false, mid, victim;
        }
        CopyEnds(s, mid, cur, vpn, victim);
        CopyPage(cur, vpn, dest);
      } else {
        MarkEnds(mid, cur, vpn, writing);
      }
      tables := tables[cur := tables[cur][vpn := Touch(tables[cur][vpn], writing)]];
      ok := true;
    }

    /** `Machine::Translate` on the linear page table. A bus error cannot happen, because
        every entry names a frame that exists. */
    method Translate(cur: nat, addr: nat, size: nat, writing: bool)
      returns (r: Outcome, phys: nat, ghost mid: Vm, ghost victim: nat)
      requires Valid() && cur in tables && (size == 1 || size == 2 || size == 4)
      modifies `mem, `frames, `bits, `swap, `slots, `swapBits, `tables, `probe
      ensures r == AddressError <==> addr % size != 0 || addr / PAGE_SIZE >= |old(tables)[cur]|
      ensures r == PageFault <==>
        addr % size == 0 && Has(old(tables), cur, addr / PAGE_SIZE) && !old(tables)[cur][addr / PAGE_SIZE].valid
      ensures r != BusError
      ensures r == OutOfSwap ==>
        writing && Copies(old(tables), cur, addr / PAGE_SIZE) && FirstClear(old(swapBits), 0) == |old(swapBits)|
      ensures r == AddressError || r == PageFault ==> S() == old(S())
      ensures Valid() && Abs(S()) == Abs(old(S()))
      ensures r == NoException ==> Translated(tables, cur, addr, size, writing, phys)
      ensures Inv(mid) && SameButUse(old(S()), mid) && (!writing ==> mid == old(S()) && victim == 0)
      ensures Chosen(old(S()), mid, cur, FrameOf(old(tables), cur, addr / PAGE_SIZE))
      ensures r == OutOfSwap ==> S() == mid
      ensures r == NoException ==>
        && Core(mid) && CanAccess(mid, cur, addr / PAGE_SIZE, writing, victim)
        && S() == Access(mid, cur, addr / PAGE_SIZE, writing, victim)
    {
      hide Inv, Core, SameButUse, Abs, Access, CanAccess, FirstClear;
      ghost var s := S();
      InvSelf(s);
      mid, victim := s, 0;
      MisalignedIs(addr, size);
      if Misaligned(addr, size) {
        return AddressError, 0, mid, victim;
      }
      var vpn, offset := addr / PAGE_SIZE, addr % PAGE_SIZE;
      if vpn >= |tables[cur]| {
        return AddressError, 0, mid, victim;
      } else if !tables[cur][vpn].valid {
        return PageFault, 0, mid, victim;
      }
      var ok;
      ok, mid, victim := AccessPage(cur, vpn, writing);
      if !ok {
        UseAbs(s, mid);
        return OutOfSwap, 0, mid, victim;
      }
      AccessEnds(s, mid, cur, vpn, writing, victim);
      WithinPage(addr, size);
      var pageFrame := tables[cur][vpn].frame;
      r := if pageFrame >= NUM_PHYS_PAGES then BusError else NoException;
      phys := pageFrame * PAGE_SIZE + offset;
    }

    /** `Machine::WriteMem`: on success the writer's memory has the bytes, and nothing else
        has changed for anybody. */
    method WriteMem(cur: nat, addr: nat, bytes: seq<bv8>) returns (r: Outcome, ghost steps: seq<Step>)
      requires Valid() && cur in tables && (|bytes| == 1 || |bytes| == 2 || |bytes| == 4)
      modifies `mem, `frames, `bits, `swap, `slots, `swapBits, `tables, `probe
      ensures r == AddressError <==> addr % |bytes| != 0 || addr / PAGE_SIZE >= |old(tables)[cur]|
      ensures r == PageFault <==>
        addr % |bytes| == 0 && Has(old(tables), cur, addr / PAGE_SIZE) && !old(tables)[cur][addr / PAGE_SIZE].valid
      ensures r == OutOfSwap ==>
        Copies(old(tables), cur, addr / PAGE_SIZE) && FirstClear(old(swapBits), 0) == |old(swapBits)|
      ensures r != BusError
      ensures Valid()
      ensures Abs(S()) ==
        if r == NoException then AbsNext(Abs(old(S())), Write(cur, addr, bytes, 0), images) else Abs(old(S()))
      ensures r == AddressError || r == PageFault ==> S() == old(S())
      ensures Leads(old(S()), steps, S()) && IsWrite(steps, r, cur, addr, bytes)
    {
      hide Leads, Inv, Core, SameButUse, CanAccess, Access, Abs, AbsNext, Chosen, Translated;
      ghost var s := S();
      LeadsNone(s);
      steps := [];
      var phys;
      ghost var mid, victim;
      r, phys, mid, victim := Translate(cur, addr, |bytes|, true);
      ghost var notMe := FrameOf(s.tables, cur, addr / PAGE_SIZE);
      ChooseLeads(s, mid, cur, notMe);
      if r == OutOfSwap {
        steps := [Choosing(s, mid, cur, notMe)];
      }
      if r != NoException {
        return;
      }
      ghost var s1 := S();
      steps := [Choosing(s, mid, cur, notMe)] + [Write(cur, addr, bytes, victim)];
      WriteLeads(s, mid, cur, notMe, addr, bytes, victim, phys);
      StoreEnds(s1, cur, addr, bytes, phys);
      var f := phys / PAGE_SIZE;
      mem := mem[f := Splice(mem[f], phys % PAGE_SIZE, bytes)];
    }

    /** `Machine::ReadMem`: on success it returns the bytes of the reader's memory. */
    method ReadMem(cur: nat, addr: nat, size: nat) returns (r: Outcome, bytes: seq<bv8>)
      requires Valid() && cur in tables && (size == 1 || size == 2 || size == 4)
      modifies `mem, `frames, `bits, `swap, `slots, `swapBits, `tables, `probe
      ensures r == AddressError <==> addr % size != 0 || addr / PAGE_SIZE >= |old(tables)[cur]|
      ensures r == PageFault <==>
        addr % size == 0 && Has(old(tables), cur, addr / PAGE_SIZE) && !old(tables)[cur][addr / PAGE_SIZE].valid
      ensures r == AddressError || r == PageFault || r == NoException
      ensures Valid() && Abs(S()) == Abs(old(S()))
      ensures r == NoException ==> BytesAt(Abs(S()), cur, addr, bytes) && |bytes| == size
      ensures r == AddressError || r == PageFault ==> S() == old(S())
      ensures r == NoException ==> Leads(old(S()), [Read(cur, addr, size)], S())
    {
      hide Leads, Inv, Core, SameButUse, CanAccess, Access;
      ghost var s := S();
      var phys;
      ghost var mid, victim;
      r, phys, mid, victim := Translate(cur, addr, size, false);
      bytes := [];
      if r == NoException {
        ReadLeads(s, cur, addr, size);
        ReadEnds(S(), cur, addr, size, phys);
        var f := phys / PAGE_SIZE;
        bytes := mem[f][phys % PAGE_SIZE..phys % PAGE_SIZE + size];
      }
    }
  }

  /** A write to this page must copy it first. */
  ghost predicate Copies(t: Tables, a: nat, p: nat) {
    Has(t, a, p) && At(t, a, p).cow
  }

  predicate CanWriteOut(s: Vm, f: nat) {
    && Mapped(s, f) && |s.swapBits| == |s.swap|
    && (Rep(s, f).file == Swap ==> Slot(Rep(s, f)) < |s.swap|)
  }

  ghost function WrittenOut(s: Vm, f: nat): Vm
    requires CanWriteOut(s, f)
    requires !(NeedsSlot(s, f) && FirstClear(s.swapBits, 0) == |s.swapBits|)
  {
    var fr, rep := s.frames[f], Rep(s, f);
    if NeedsSlot(s, f) then
      var k := FirstClear(s.swapBits, 0);
      s.(swapBits := s.swapBits[k := true], swap := s.swap[k := s.mem[f]],
         tables := EditAll(s.tables, fr.owners, fr.page, ToSlot(k)))
    else if rep.dirty then s.(swap := s.swap[Slot(rep) := s.mem[f]])
    else if rep.file != Swap then s.(tables := EditAll(s.tables, fr.owners, fr.page, Private))
    else s
  }

  predicate CanDetach(s: Vm, f: nat) {
    Mapped(s, f) && (Rep(s, f).file == Swap ==> Slot(Rep(s, f)) < |s.slots|)
  }

  ghost function Detached(s: Vm, f: nat): Vm
    requires CanDetach(s, f)
  {
    var fr, rep := s.frames[f], Rep(s, f);
    s.(slots := if rep.file == Swap then s.slots[Slot(rep) := fr] else s.slots,
       tables := EditAll(s.tables, fr.owners, fr.page, Unmap),
       frames := s.frames[f := fr.(owners := [])])
  }

  lemma OutHalves(s: Vm, f: nat)
    requires CanPageOut(s, f) && CanWriteOut(s, f)
    ensures CanDetach(WrittenOut(s, f), f) && PageOut(s, f) == Detached(WrittenOut(s, f), f)
  {
    RepWritten(s, f);
    hide EditAll, FirstClear, Mapped;
    var rep, w := Rep(s, f), WrittenOut(s, f);
    if NeedsSlot(s, f) {
      assert Slot(Rep(w, f)) == FirstClear(s.swapBits, 0);
    }
    assert PageOut(s, f).slots == Detached(w, f).slots;
    assert PageOut(s, f).tables == Detached(w, f).tables;
  }

  lemma RepWritten(s: Vm, f: nat)
    requires CanPageOut(s, f) && CanWriteOut(s, f)
    ensures var w := WrittenOut(s, f);
      && w.frames == s.frames && |w.slots| == |s.slots| && Mapped(w, f)
      && Rep(w, f) ==
         if NeedsSlot(s, f) then Apply(ToSlot(FirstClear(s.swapBits, 0)), Rep(s, f))
         else if !Rep(s, f).dirty && Rep(s, f).file != Swap then Apply(Private, Rep(s, f))
         else Rep(s, f)
  {
    EditFirst(s.tables, s.frames[f].owners, s.frames[f].page);
  }

  /** What the edits of page-out leave in the first owner's entry. */
  lemma EditFirst(t: Tables, owners: seq<nat>, p: nat)
    requires owners != [] && forall a :: a in owners ==> a in t && p < |t[a]|
    ensures owners[0] in owners
    ensures forall k :: EditAll(t, owners, p, ToSlot(k))[owners[0]][p] == Apply(ToSlot(k), t[owners[0]][p])
    ensures EditAll(t, owners, p, Private)[owners[0]][p] == Apply(Private, t[owners[0]][p])
  {
    forall k: nat
      ensures EditAll(t, owners, p, ToSlot(k))[owners[0]][p] == Apply(ToSlot(k), t[owners[0]][p])
    {
      EditAllAt(t, owners, p, ToSlot(k));
      assert At(EditAll(t, owners, p, ToSlot(k)), owners[0], p) == Apply(ToSlot(k), At(t, owners[0], p));
    }
    EditAllAt(t, owners, p, Private);
    assert At(EditAll(t, owners, p, Private), owners[0], p) == Apply(Private, At(t, owners[0], p));
  }

  /** The slot of a page that has one exists. */
  /** A page-out writes nothing for a clean page. */
  lemma OutLeaves(s: Vm, f: nat)
    requires Mapped(s, f)
    ensures CanPageOut(s, f) ==>
      var s', e := PageOut(s, f), Rep(s, f);
      && s'.mem == s.mem && s'.bits == s.bits && f < |s'.frames| && s'.frames[f].owners == []
      && (!e.dirty ==> s'.swap == s.swap && s'.swapBits == s.swapBits)
  {
  }

  lemma RepSlot(s: Vm, f: nat)
    requires Core(s) && Mapped(s, f)
    ensures Rep(s, f).file == Swap ==> Slot(Rep(s, f)) < |s.slots|
    ensures |s.slots| == |s.swapBits| == |s.swap|
    ensures forall a :: a in s.frames[f].owners ==> Has(s.tables, a, s.frames[f].page)
    ensures s.frames[f].owners != [] && s.frames[f].owners[0] in s.frames[f].owners
    ensures CanWriteOut(s, f)
  {
    var a := s.frames[f].owners[0];
    assert Owns(s.frames, f, a);
    if Rep(s, f).file == Swap {
      assert Owns(s.slots, Slot(Rep(s, f)), a);
    }
  }

  lemma FrameCount(s: Vm)
    requires Core(s)
    ensures |s.frames| == NUM_PHYS_PAGES
  {
  }

  lemma TimesOk(s: Vm, a: nat)
    requires Core(s) && a in s.tables
    ensures forall i :: 0 <= i < |s.tables[a]| ==> s.tables[a][i].time < NEVER
  {
    forall i | 0 <= i < |s.tables[a]| ensures s.tables[a][i].time < NEVER {
      assert EntryOk(At(s.tables, a, i));
    }
  }

  lemma LruTakesAll(t: seq<Entry>)
    ensures forall i :: 0 <= i < |t| && t[i].time < NEVER ==> LruTakes(t[i])
  {
  }

  lemma OwnedMapped(s: Vm, f: nat)
    requires Core(s) && f < |s.frames| && s.frames[f].owners != []
    ensures Mapped(s, f)
  {
    forall a | a in s.frames[f].owners ensures a in s.tables && s.frames[f].page < |s.tables[a]| {
      assert Owns(s.frames, f, a);
    }
  }

  lemma CandidateAt(s: Vm, a: nat, f: nat, notMe: int)
    requires Core(s) && a in s.tables && f < |s.frames| && a in s.frames[f].owners && f != notMe
    ensures Candidate(s.tables[a], s.frames[f].page, notMe)
  {
    assert Owns(s.frames, f, a);
    assert At(s.tables, a, s.frames[f].page) == s.tables[a][s.frames[f].page];
  }

  lemma BestMapped(s: Vm, a: nat, i: int)
    requires Core(s) && a in s.tables && 0 <= i < |s.tables[a]| && s.tables[a][i].valid
    ensures Mapped(s, s.tables[a][i].frame) && a in s.frames[s.tables[a][i].frame].owners
  {
    assert At(s.tables, a, i) == s.tables[a][i];
    assert Owns(s.frames, s.tables[a][i].frame, a);
    OwnedMapped(s, s.tables[a][i].frame);
  }

  lemma ScanKeeps(s: Vm, a: nat, notMe: int)
    requires Inv(s) && a in s.tables
    ensures var s' := Scanned(s, a, notMe);
      && SameButUse(s, s') && Inv(s')
      && (forall f: nat :: Mapped(s, f) ==> Mapped(s', f))
  {
    var s' := Scanned(s, a, notMe);
    ScanIsUse(s, a, notMe);
    UseKeeps(s, s');
    UsableGrows(s, s');
  }

  lemma StillFull(s: Vm, s': Vm, cur: nat)
    requires Inv(s) && Inv(s') && SameButUse(s, s') && cur in s.tables && cur in s.wss
    requires !FindsFree(s, cur) && s'.wss == s.wss
    ensures cur in s'.tables && cur in s'.wss && !FindsFree(s', cur)
  {
    hide Core;
    var t, t' := s.tables[cur], s'.tables[cur];
    forall p | 0 <= p < |t| ensures t'[p].valid == t[p].valid {
      assert At(s.tables, cur, p) == t[p] && At(s'.tables, cur, p) == t'[p];
    }
    ValidsDrop(t, t', |t|);
  }

  lemma UseEntry(s: Vm, s': Vm, a: nat, p: nat)
    requires SameButUse(s, s') && Has(s.tables, a, p)
    ensures Has(s'.tables, a, p) && s'.tables[a][p].valid == s.tables[a][p].valid
    ensures Stored(s', s'.tables[a][p]) == Stored(s, s.tables[a][p])
    ensures s'.tables[a][p].cow == s.tables[a][p].cow && s'.tables[a][p].frame == s.tables[a][p].frame
  {
    assert At(s.tables, a, p) == s.tables[a][p] && At(s'.tables, a, p) == s'.tables[a][p];
  }

  lemma InvLimit(s: Vm, a: nat)
    requires Inv(s) && a in s.tables
    ensures a in s.wss
  {
  }

  /** A page-in after a scan of use bits, seen from before the scan. */
  lemma PageInEnds(s: Vm, mid: Vm, cur: nat, a: nat, p: nat, victim: nat, now: nat)
    requires Inv(s) && Inv(mid) && SameButUse(s, mid) && CanAlloc(mid, cur, -1, victim) && now < NEVER
    requires Has(s.tables, a, p) && !s.tables[a][p].valid && Stored(s, s.tables[a][p]).Some?
    ensures Core(mid) && CanPageIn(mid, cur, a, p, victim)
    ensures CanLoad(Alloc(mid, cur, -1, victim), a, p, AllocFrame(mid, cur, victim))
    ensures var s' := Load(Alloc(mid, cur, -1, victim), a, p, AllocFrame(mid, cur, victim), now);
      && s' == PageIn(mid, cur, a, p, victim, now)
      && Inv(s') && Abs(s') == Abs(s)
      && Has(s'.tables, a, p) && s'.tables[a][p].valid
  {
    hide Core, SameButUse, Alloc, Load, CanLoad, Abs, Usable, EnoughUsable;
    UseEntry(s, mid, a, p);
    InReady(mid, cur, a, p, victim, now);
    LoadIsOk(Alloc(mid, cur, -1, victim), a, p, AllocFrame(mid, cur, victim), now);
    PageInKeeps(mid, cur, a, p, victim, now);
    var s' := PageIn(mid, cur, a, p, victim, now);
    StepInv(mid, s');
    AbsSame(mid, s');
    UseKeeps(s, mid);
    AbsSame(s, mid);
  }

  lemma LoadIsOk(s: Vm, a: nat, p: nat, dest: nat, now: nat)
    requires LoadOk(s, a, p, dest, now)
    ensures CanLoad(s, a, p, dest)
  {
  }

  lemma StepInv(s: Vm, s': Vm)
    requires Inv(s) && Core(s') && forall f: nat :: Usable(s, f) ==> Usable(s', f)
    ensures Inv(s')
  {
    UsableGrows(s, s');
  }

  datatype Outcome = NoException | AddressError | PageFault | BusError | OutOfSwap

  /** What a successful translation leaves behind. */
  ghost predicate Translated(t: Tables, cur: nat, addr: nat, size: nat, writing: bool, phys: nat) {
    && Aligned(addr, size) && Has(t, cur, addr / PAGE_SIZE)
    && var e := At(t, cur, addr / PAGE_SIZE);
    && e.valid && e.use && (writing ==> e.dirty && !e.cow)
    && e.frame < NUM_PHYS_PAGES
    && phys == e.frame * PAGE_SIZE + addr % PAGE_SIZE
    && phys + size <= NUM_PHYS_PAGES * PAGE_SIZE
  }

  /** These are the bytes of a space at a virtual address. */
  ghost predicate BytesAt(m: AbsMem, a: nat, addr: nat, bytes: seq<bv8>) {
    var p, off := addr / PAGE_SIZE, addr % PAGE_SIZE;
    && a in m && p < |m[a]| && m[a][p].Some?
    && off + |bytes| <= |m[a][p].value|
    && bytes == m[a][p].value[off..off + |bytes|]
  }

  lemma PhysParts(f: nat, off: nat)
    requires off < PAGE_SIZE
    ensures (f * PAGE_SIZE + off) / PAGE_SIZE == f && (f * PAGE_SIZE + off) % PAGE_SIZE == off
  {
  }

  lemma StoreEnds(s: Vm, cur: nat, addr: nat, bytes: seq<bv8>, phys: nat)
    requires Inv(s) && Translated(s.tables, cur, addr, |bytes|, true, phys)
    ensures var f, off := phys / PAGE_SIZE, phys % PAGE_SIZE;
      && f < |s.mem| && off + |bytes| <= |s.mem[f]|
      && Inv(Store(s, f, off, bytes))
      && Abs(Store(s, f, off, bytes)) == AbsNext(Abs(s), Write(cur, addr, bytes, 0), s.images)
  {
    var p, off := addr / PAGE_SIZE, addr % PAGE_SIZE;
    var f := At(s.tables, cur, p).frame;
    PhysParts(f, off);
    WithinPage(addr, |bytes|);
    StoreKeeps(s, cur, p, off, bytes);
    hide Core, Content, Stored;
    var s' := Store(s, f, off, bytes);
    StepInv(s, s');
    StoreAbs(s, cur, p, off, bytes, s', s.mem[f]);
    assert Pages(s, s.tables[cur])[p] == Some(s.mem[f]);
  }

  lemma ReadEnds(s: Vm, cur: nat, addr: nat, size: nat, phys: nat)
    requires Inv(s) && Translated(s.tables, cur, addr, size, false, phys)
    ensures var f, off := phys / PAGE_SIZE, phys % PAGE_SIZE;
      && f < |s.mem| && off + size <= |s.mem[f]|
      && BytesAt(Abs(s), cur, addr, s.mem[f][off..off + size])
  {
    var p, off := addr / PAGE_SIZE, addr % PAGE_SIZE;
    PhysParts(At(s.tables, cur, p).frame, off);
    ReadSees(s, cur, addr, size);
  }

  lemma InvSelf(s: Vm)
    requires Inv(s)
    ensures SameButUse(s, s) && Core(s)
  {
  }

  ghost function FrameOf(t: Tables, a: nat, p: nat): int {
    if Has(t, a, p) then At(t, a, p).frame else -1
  }

  /** The choice of a victim has changed nothing, or it has been the scan of second
      chance. */
  ghost predicate Chosen(s: Vm, s': Vm, a: nat, notMe: int) {
    s' == s || (a in s.tables && s' == Scanned(s, a, notMe))
  }

  ghost function Choosing(s: Vm, s': Vm, a: nat, notMe: int): Step {
    Choose(a, notMe, s' != s)
  }

  lemma UseSwap(s: Vm, s': Vm)
    requires SameButUse(s, s')
    ensures s'.swapBits == s.swapBits
  {
  }

  /** What a write does to the run: it may choose a victim, and then, if it succeeds, it is
      the write step. */
  ghost predicate IsWrite(steps: seq<Step>, r: Outcome, cur: nat, addr: nat, bytes: seq<bv8>) {
    match r
    case NoException =>
      && |steps| == 2 && steps[0].Choose? && steps[1].Write?
      && steps[1].cur == cur && steps[1].addr == addr && steps[1].bytes == bytes
    case OutOfSwap => |steps| == 1 && steps[0].Choose?
    case _ => steps == []
  }

  lemma ChooseLeads(s: Vm, s': Vm, a: nat, notMe: int)
    requires Inv(s) && a in s.tables && Chosen(s, s', a, notMe)
    ensures Leads(s, [Choosing(s, s', a, notMe)], s') && Inv(s')
  {
    hide Core, EnoughUsable, Leads;
    LeadsOne(s, Choosing(s, s', a, notMe));
  }

  lemma ThenLeads(s: Vm, mid: Vm, a: nat, notMe: int, st: Step)
    requires Inv(s) && a in s.tables && Chosen(s, mid, a, notMe) && Inv(mid) && Enabled(mid, st)
    ensures Leads(s, [Choosing(s, mid, a, notMe)] + [st], Next(mid, st))
  {
    hide Core, EnoughUsable, Chosen, Choosing, Enabled, Next, Leads;
    ChooseLeads(s, mid, a, notMe);
    LeadsOne(mid, st);
    LeadsOn(s, [Choosing(s, mid, a, notMe)], mid, [st], Next(mid, st));
  }

  lemma ReadLeads(s: Vm, cur: nat, addr: nat, size: nat)
    requires Inv(s) && Aligned(addr, size) && CanAccess(s, cur, addr / PAGE_SIZE, false, 0)
    ensures Core(s) && Leads(s, [Read(cur, addr, size)], Access(s, cur, addr / PAGE_SIZE, false, 0))
  {
    hide Core, EnoughUsable, CanAccess, Leads;
    LeadsOne(s, Read(cur, addr, size));
  }

  lemma WriteLeads(
    s: Vm, mid: Vm, cur: nat, notMe: int, addr: nat, bytes: seq<bv8>, victim: nat, phys: nat)
    requires Inv(s) && Inv(mid) && cur in s.tables && Chosen(s, mid, cur, notMe) && Aligned(addr, |bytes|)
    requires Core(mid) && CanAccess(mid, cur, addr / PAGE_SIZE, true, victim)
    requires var s1 := Access(mid, cur, addr / PAGE_SIZE, true, victim);
      Inv(s1) && Translated(s1.tables, cur, addr, |bytes|, true, phys)
    ensures var s1, f, off := Access(mid, cur, addr / PAGE_SIZE, true, victim), phys / PAGE_SIZE, phys % PAGE_SIZE;
      && f < |s1.mem| && off + |bytes| <= |s1.mem[f]|
      && Leads(s, [Choosing(s, mid, cur, notMe)] + [Write(cur, addr, bytes, victim)], Store(s1, f, off, bytes))
  {
    hide Core, EnoughUsable, Chosen, Choosing, CanAccess, Access, Leads, AbsNext, Abs, Store;
    var s1 := Access(mid, cur, addr / PAGE_SIZE, true, victim);
    StoreEnds(s1, cur, addr, bytes, phys);
    PhysParts(s1.tables[cur][addr / PAGE_SIZE].frame, addr % PAGE_SIZE);
    ThenLeads(s, mid, cur, notMe, Write(cur, addr, bytes, victim));
  }

  lemma UseAbs(s: Vm, s': Vm)
    requires Inv(s) && SameButUse(s, s')
    ensures Abs(s') == Abs(s) && s'.swapBits == s.swapBits
  {
    UseKeeps(s, s');
    AbsSame(s, s');
  }

  lemma CopyEnds(s: Vm, mid: Vm, cur: nat, p: nat, victim: nat)
    requires Inv(s) && Inv(mid) && SameButUse(s, mid) && Has(s.tables, cur, p)
    requires s.tables[cur][p].valid && s.tables[cur][p].cow && CanAlloc(mid, cur, s.tables[cur][p].frame, victim)
    ensures Core(mid) && CanAccess(mid, cur, p, true, victim)
    ensures mid.tables[cur][p].cow && mid.tables[cur][p].frame == s.tables[cur][p].frame
    ensures var s1 := Alloc(mid, cur, s.tables[cur][p].frame, victim);
      var d := AllocFrame(mid, cur, victim);
      && CanCopy(s1, cur, p, d) && s1.frames[d].owners == []
      && Has(Copy(s1, cur, p, d).tables, cur, p)
      && Access(mid, cur, p, true, victim) == Mark(Copy(s1, cur, p, d), cur, p, true)
  {
    hide Core, SameButUse, Alloc, Copy;
    UseEntry(s, mid, cur, p);
    CopyReady(mid, cur, p, victim);
    CopyHas(Alloc(mid, cur, s.tables[cur][p].frame, victim), cur, p, AllocFrame(mid, cur, victim));
  }

  lemma MarkEnds(s: Vm, cur: nat, p: nat, writing: bool)
    requires Inv(s) && Has(s.tables, cur, p) && s.tables[cur][p].valid && !(writing && s.tables[cur][p].cow)
    ensures Core(s) && CanAccess(s, cur, p, writing, 0) && Access(s, cur, p, writing, 0) == Mark(s, cur, p, writing)
  {
  }

  /** A translation after a scan of use bits, seen from before the scan. */
  lemma AccessEnds(s: Vm, mid: Vm, cur: nat, p: nat, writing: bool, victim: nat)
    requires Inv(s) && Inv(mid) && SameButUse(s, mid) && CanAccess(mid, cur, p, writing, victim)
    ensures var s' := Access(mid, cur, p, writing, victim);
      && Inv(s') && Abs(s') == Abs(s)
      && Has(s'.tables, cur, p) && s'.tables[cur][p].frame < NUM_PHYS_PAGES
      && s'.tables[cur][p].valid && s'.tables[cur][p].use
      && (writing ==> s'.tables[cur][p].dirty && !s'.tables[cur][p].cow)
  {
    hide Core, SameButUse, CanAccess, Access, Abs, Usable, EnoughUsable;
    UseKeeps(s, mid);
    AbsSame(s, mid);
    AccessKeeps(mid, cur, p, writing, victim);
    var s' := Access(mid, cur, p, writing, victim);
    StepInv(mid, s');
    AbsSame(mid, s');
    AccessHas(mid, cur, p, writing, victim);
    AccessEntry(mid, cur, p, writing, victim, cur, p);
  }

  lemma AccessHas(s: Vm, cur: nat, p: nat, writing: bool, victim: nat)
    requires Core(s) && CanAccess(s, cur, p, writing, victim)
    requires SameShape(s, Access(s, cur, p, writing, victim)) && Core(Access(s, cur, p, writing, victim))
    ensures Has(Access(s, cur, p, writing, victim).tables, cur, p)
    ensures Access(s, cur, p, writing, victim).tables[cur][p].frame < NUM_PHYS_PAGES
  {
    hide Access;
    assert EntryOk(At(Access(s, cur, p, writing, victim).tables, cur, p));
  }
}
