// Demand paging with copy-on-write: the state that the memory manager, the
// swap manager, the page tables and the simulated main memory share, and the
// steps that change it.
//
// The paging state is a value here; PagingKernel.dfy holds the class whose
// methods run the loops of the kernel and are proved to take these steps.

module Paging {
  import opened Options
  import opened FreeBits
  import opened Sequences

  const PAGE_SIZE: nat := 128
  const NUM_PHYS_PAGES: nat := 128
  const NUM_SWAP_PAGES: nat := 4096
  const MIN_WORKING_SET: int := 4
  const MAX_WORKING_SET: int := 32

  // A clock value that no page can have been loaded at: the scans for a victim
  // start from it.
  const NEVER: nat := 0xFFFF_FFFF

  type Page = seq<bv8>

  /** The `File` pointer of a translation entry. */
  datatype Backing = NoFile | Swap | Image(id: nat)

  /** One page-table entry (`TranslationEntry`). */
  datatype Entry = Entry(
    frame: nat, valid: bool, readOnly: bool, use: bool, dirty: bool,
    file: Backing, offset: nat, zero: bool, cow: bool,
    time: nat, history: bv8)

  /** The record of a memory frame or of a swap slot: who maps it, and at which
      virtual page. `numOwners` is the length of `owners`. */
  datatype Frame = Frame(owners: seq<nat>, page: nat)

  type Tables = map<nat, seq<Entry>>

  /** `frames`, `bits`: the memory manager; `slots`, `swapBits`, `swap`: the swap
      manager and its file; `mem`: main memory, page by page; `tables`, `wss`: one
      page table and one working-set limit for each address space; `images`: the
      executables. */
  datatype Vm = Vm(
    mem: seq<Page>, frames: seq<Frame>, bits: seq<bool>,
    swap: seq<Page>, slots: seq<Frame>, swapBits: seq<bool>,
    tables: Tables, wss: map<nat, int>, images: map<nat, seq<bv8>>)

  // ---------------------------------------------------------------- tables

  ghost predicate Has(t: Tables, a: nat, p: nat) {
    a in t && p < |t[a]|
  }

  ghost function At(t: Tables, a: nat, p: nat): Entry
    requires Has(t, a, p)
  {
    t[a][p]
  }

  function Put(t: Tables, a: nat, p: nat, e: Entry): Tables
    requires a in t && p < |t[a]|
  {
    t[a := t[a][p := e]]
  }

  /** The changes that the kernel applies to the entry of every owner of a frame. */
  datatype Edit =
    | ToSlot(slot: nat)
    | Private
    | Unmap
    | MapTo(dest: nat, now: nat)

  function Apply(ed: Edit, e: Entry): Entry {
    match ed
    case ToSlot(slot) => e.(file := Swap, offset := slot * PAGE_SIZE, zero := false)
    case Private => e.(cow := false)
    case Unmap => e.(valid := false)
    case MapTo(dest, now) =>
      e.(valid := true, use := false, dirty := false, frame := dest, time := now)
  }

  /** Apply `ed` to page `p` of each space of `owners`, in order. */
  function EditAll(t: Tables, owners: seq<nat>, p: nat, ed: Edit): (r: Tables)
    requires forall a :: a in owners ==> a in t && p < |t[a]|
    ensures r.Keys == t.Keys
    ensures forall a :: a in t ==> |r[a]| == |t[a]|
    decreases |owners|
  {
    if owners == [] then t
    else
      var n := |owners| - 1;
      var before := EditAll(t, owners[..n], p, ed);
      Put(before, owners[n], p, Apply(ed, before[owners[n]][p]))
  }

  // ---------------------------------------------------------------- contents

  function Slot(e: Entry): nat {
    e.offset / PAGE_SIZE
  }

  function Zeros(): (z: Page)
    ensures |z| == PAGE_SIZE
  {
    seq(PAGE_SIZE, _ => 0 as bv8)
  }

  /** What a page fault would load for this entry, if it can load anything. */
  function Stored(s: Vm, e: Entry): Option<Page> {
    if e.zero then Some(Zeros())
    else match e.file
      case Swap => if Slot(e) < |s.swap| then Some(s.swap[Slot(e)]) else None
      case Image(id) =>
        if id in s.images && e.offset + PAGE_SIZE <= |s.images[id]|
        then Some(s.images[id][e.offset..e.offset + PAGE_SIZE]) else None
      case NoFile => None
  }

  /** The contents of a virtual page: its frame while it is mapped, otherwise
      what a fault would load. */
  function Content(s: Vm, e: Entry): Option<Page> {
    if e.valid then (if e.frame < |s.mem| then Some(s.mem[e.frame]) else None)
    else Stored(s, e)
  }

  // ---------------------------------------------------------------- frames of a process

  function Valids(t: seq<Entry>): (n: nat)
    ensures n <= |t|
    decreases |t|
  {
    if t == [] then 0
    else Valids(t[..|t| - 1]) + (if t[|t| - 1].valid then 1 else 0)
  }

  predicate TooMany(s: Vm, a: nat)
    requires a in s.tables && a in s.wss
  {
    Valids(s.tables[a]) > s.wss[a]
  }

  // ---------------------------------------------------------------- owner lists

  function Without(xs: seq<nat>, x: nat): (r: seq<nat>)
    ensures forall y :: y in r <==> y in xs && y != x
    decreases |xs|
  {
    if xs == [] then []
    else
      var n := |xs| - 1;
      Without(xs[..n], x) + (if xs[n] != x then [xs[n]] else [])
  }

  /** `release_page` and `release_frame`: the last owner frees the frame. */
  function Released(f: Frame, a: nat): Frame {
    if |f.owners| == 1 then f.(owners := []) else f.(owners := Without(f.owners, a))
  }

  function ReleasedBit(f: Frame, b: bool): bool {
    b && |f.owners| != 1
  }

  /** `add_frame_owner`. */
  function Owned(f: Frame, a: nat, p: nat): Frame {
    Frame(f.owners + [a], p)
  }

  // ---------------------------------------------------------------- the invariant

  datatype Kind = Phys | Disk

  /** The frame or the slot that an entry refers to, -1 when there is none. */
  function Ref(k: Kind, e: Entry): int {
    match k
    case Phys => if e.valid then e.frame else -1
    case Disk => if e.file == Swap then Slot(e) else -1
  }

  ghost predicate Owns(fr: seq<Frame>, f: int, a: nat) {
    0 <= f < |fr| && a in fr[f].owners
  }

  /** Every owner's entry for `owners_page_number` refers to the frame. */
  ghost predicate OwnersRefer(k: Kind, fr: seq<Frame>, t: Tables) {
    forall f: int, a: nat :: Owns(fr, f, a) ==>
      Has(t, a, fr[f].page) && Ref(k, At(t, a, fr[f].page)) == f
  }

  /** Every entry that refers to a frame is the owner's, at the recorded page. */
  ghost predicate RefersOwned(k: Kind, fr: seq<Frame>, t: Tables) {
    forall a: nat, p: nat :: Has(t, a, p) && Ref(k, At(t, a, p)) >= 0 ==>
      Owns(fr, Ref(k, At(t, a, p)), a) && fr[Ref(k, At(t, a, p))].page == p
  }

  ghost predicate Once(fr: seq<Frame>) {
    forall f :: 0 <= f < |fr| ==> Distinct(fr[f].owners)
  }

  /** A space is in an owner list exactly once iff its entry refers to the frame. */
  ghost predicate Tracks(k: Kind, fr: seq<Frame>, t: Tables) {
    OwnersRefer(k, fr, t) && RefersOwned(k, fr, t) && Once(fr)
  }

  /** A frame or slot with two owners is copy-on-write for all of them. */
  ghost predicate SharedIsCow(fr: seq<Frame>, t: Tables) {
    forall f: int, a: nat :: Owns(fr, f, a) && |fr[f].owners| >= 2 ==>
      Has(t, a, fr[f].page) && At(t, a, fr[f].page).cow
  }

  predicate SameSource(e: Entry, e': Entry) {
    e.dirty == e'.dirty && e.file == e'.file && e.offset == e'.offset && e.zero == e'.zero
  }

  ghost predicate OwnersAgree(fr: seq<Frame>, t: Tables) {
    forall f: int, a: nat, b: nat :: Owns(fr, f, a) && Owns(fr, f, b) ==>
      Has(t, a, fr[f].page) && Has(t, b, fr[f].page) &&
      SameSource(At(t, a, fr[f].page), At(t, b, fr[f].page))
  }

  predicate SameFrame(e: Entry, e': Entry) {
    e.valid == e'.valid && (e.valid ==> e.frame == e'.frame)
  }

  ghost predicate SlotOwnersAgree(fr: seq<Frame>, t: Tables) {
    forall f: int, a: nat, b: nat :: Owns(fr, f, a) && Owns(fr, f, b) ==>
      Has(t, a, fr[f].page) && Has(t, b, fr[f].page) &&
      SameFrame(At(t, a, fr[f].page), At(t, b, fr[f].page))
  }

  ghost predicate CleanIsStored(s: Vm) {
    forall a: nat, p: nat ::
      Has(s.tables, a, p) && At(s.tables, a, p).valid && !At(s.tables, a, p).dirty ==>
      Stored(s, At(s.tables, a, p)) == Content(s, At(s.tables, a, p))
  }

  predicate EntryOk(e: Entry) {
    && e.frame < NUM_PHYS_PAGES
    && e.time < NEVER
    && (e.file == Swap ==> !e.zero && e.offset % PAGE_SIZE == 0)
  }

  ghost predicate EntriesOk(t: Tables) {
    forall a: nat, p: nat :: Has(t, a, p) ==> EntryOk(At(t, a, p))
  }

  /** No owned frame is marked free. */
  ghost predicate ClearIsUnowned(fr: seq<Frame>, bits: seq<bool>) {
    |bits| == |fr| && forall f :: 0 <= f < |fr| && !bits[f] ==> fr[f].owners == []
  }

  ghost predicate MarkedIsOwned(fr: seq<Frame>, bits: seq<bool>) {
    |bits| == |fr| && forall f :: 0 <= f < |fr| && bits[f] ==> fr[f].owners != []
  }

  ghost predicate Sizes(s: Vm) {
    && |s.mem| == |s.frames| == |s.bits| == NUM_PHYS_PAGES
    && |s.swap| == |s.slots| == |s.swapBits| == NUM_SWAP_PAGES
    && (forall f :: 0 <= f < |s.mem| ==> |s.mem[f]| == PAGE_SIZE)
    && (forall f :: 0 <= f < |s.swap| ==> |s.swap[f]| == PAGE_SIZE)
    && s.wss.Keys == s.tables.Keys
    && (forall a :: a in s.wss ==> s.wss[a] >= MIN_WORKING_SET)
  }

  /** A frame that a page-in can still get: free, or taken from an owner. */
  predicate Usable(s: Vm, f: nat) {
    f < |s.frames| && f < |s.bits| && (!s.bits[f] || s.frames[f].owners != [])
  }

  ghost function UsableSet(s: Vm): set<nat> {
    set f: nat | f < |s.frames| && Usable(s, f)
  }

  ghost predicate EnoughUsable(s: Vm) {
    |UsableSet(s)| >= MIN_WORKING_SET
  }

  /** The ownership invariant. */
  ghost predicate Core(s: Vm) {
    && Sizes(s)
    && Tracks(Phys, s.frames, s.tables)
    && Tracks(Disk, s.slots, s.tables)
    && SharedIsCow(s.frames, s.tables)
    && SharedIsCow(s.slots, s.tables)
    && OwnersAgree(s.frames, s.tables)
    && SlotOwnersAgree(s.slots, s.tables)
    && CleanIsStored(s)
    && EntriesOk(s.tables)
    && ClearIsUnowned(s.frames, s.bits)
    && ClearIsUnowned(s.slots, s.swapBits)
    && MarkedIsOwned(s.slots, s.swapBits)
  }

  ghost predicate Inv(s: Vm) {
    Core(s) && EnoughUsable(s)
  }

  // ---------------------------------------------------------------- pageout

  predicate Mapped(s: Vm, f: nat) {
    && f < |s.frames| && f < |s.mem|
    && s.frames[f].owners != []
    && (forall a :: a in s.frames[f].owners ==>
          a in s.tables && s.frames[f].page < |s.tables[a]|)
  }

  /** The entry `pageout` takes as the representative of all the owners'. */
  function Rep(s: Vm, f: nat): Entry
    requires Mapped(s, f)
  {
    s.tables[s.frames[f].owners[0]][s.frames[f].page]
  }

  /** The dirty page has never been swapped out, so it needs a slot. */
  predicate NeedsSlot(s: Vm, f: nat)
    requires Mapped(s, f)
  {
    Rep(s, f).dirty && Rep(s, f).file != Swap
  }

  /** `pageout` does not stop at its assertion that a swap slot was found. */
  predicate CanPageOut(s: Vm, f: nat) {
    && |s.slots| == |s.swapBits| == |s.swap|
    && Mapped(s, f)
    && (NeedsSlot(s, f) ==> FirstClear(s.swapBits, 0) < |s.swapBits|)
    && (Rep(s, f).file == Swap ==> Slot(Rep(s, f)) < |s.slots|)
  }

  /** `MemoryManager::pageout`. */
  function PageOut(s: Vm, f: nat): Vm
    requires CanPageOut(s, f)
  {
    var fr := s.frames[f];
    var rep := Rep(s, f);
    var unowned := s.(frames := s.frames[f := fr.(owners := [])]);
    if rep.dirty || rep.file == Swap then
      var isNew := rep.file != Swap;
      var slot := if isNew then FirstClear(s.swapBits, 0) else Slot(rep);
      var t := if isNew then EditAll(s.tables, fr.owners, fr.page, ToSlot(slot)) else s.tables;
      unowned.(
        swapBits := if isNew then s.swapBits[slot := true] else s.swapBits,
        swap := if rep.dirty then s.swap[slot := s.mem[f]] else s.swap,
        slots := s.slots[slot := fr],
        tables := EditAll(t, fr.owners, fr.page, Unmap))
    else
      unowned.(
        tables := EditAll(EditAll(s.tables, fr.owners, fr.page, Private), fr.owners, fr.page, Unmap))
  }

  // ---------------------------------------------------------------- allocating a frame

  /** A page-in or a copy by space `cur` finds a free frame. */
  predicate FindsFree(s: Vm, cur: nat)
    requires cur in s.tables && cur in s.wss
  {
    !TooMany(s, cur) && FirstClear(s.bits, 0) < |s.bits|
  }

  /** When no frame is free for `cur`, the victim must be an owned frame other than
      `notMe`; which one is the replacement policy's business. */
  predicate CanAlloc(s: Vm, cur: nat, notMe: int, victim: nat) {
    && cur in s.tables && cur in s.wss
    && (FindsFree(s, cur) || (victim != notMe && CanPageOut(s, victim)))
  }

  function AllocFrame(s: Vm, cur: nat, victim: nat): nat
    requires cur in s.tables && cur in s.wss
  {
    if FindsFree(s, cur) then FirstClear(s.bits, 0) else victim
  }

  function Alloc(s: Vm, cur: nat, notMe: int, victim: nat): Vm
    requires CanAlloc(s, cur, notMe, victim)
  {
    if FindsFree(s, cur) then s.(bits := s.bits[FirstClear(s.bits, 0) := true])
    else PageOut(s, victim)
  }

  // ---------------------------------------------------------------- pagein

  /** The page is not mapped, it has something to be loaded from, and a frame can
      be had for it. */
  predicate CanPageIn(s: Vm, cur: nat, a: nat, p: nat, victim: nat) {
    && a in s.tables && p < |s.tables[a]|
    && !s.tables[a][p].valid
    && Stored(s, s.tables[a][p]).Some?
    && CanAlloc(s, cur, -1, victim)
  }

  predicate CanLoad(s: Vm, a: nat, p: nat, dest: nat) {
    && a in s.tables && p < |s.tables[a]|
    && dest < |s.frames| && dest < |s.mem|
    && Stored(s, s.tables[a][p]).Some?
    && (s.tables[a][p].file == Swap ==>
          && Slot(s.tables[a][p]) < |s.slots|
          && forall b :: b in s.slots[Slot(s.tables[a][p])].owners ==>
               b in s.tables && p < |s.tables[b]|)
  }

  /** The frame record that a page-in installs: the slot's for a page that comes
      from swap, otherwise one of the faulting space alone. */
  function Loaded(s: Vm, a: nat, p: nat, dest: nat): Frame
    requires CanLoad(s, a, p, dest)
  {
    if s.tables[a][p].file == Swap then s.slots[Slot(s.tables[a][p])] else Frame([a], p)
  }

  /** Load page `p` of `a` into the frame `dest`, and map it there for all owners. */
  function Load(s: Vm, a: nat, p: nat, dest: nat, now: nat): Vm
    requires CanLoad(s, a, p, dest)
  {
    var e := s.tables[a][p];
    var fr := Loaded(s, a, p, dest);
    var t := if e.file == Swap then s.tables else Put(s.tables, a, p, e.(cow := false));
    s.(mem := s.mem[dest := Stored(s, e).value],
       frames := s.frames[dest := fr],
       tables := EditAll(t, fr.owners, p, MapTo(dest, now)))
  }

  // ---------------------------------------------------------------- translation

  /** The use, history and dirty bits that a successful translation sets. */
  function Touch(e: Entry, writing: bool): Entry {
    e.(use := true, history := e.history | 0x80, dirty := e.dirty || writing)
  }

  function Mark(s: Vm, a: nat, p: nat, writing: bool): Vm
    requires a in s.tables && p < |s.tables[a]|
  {
    s.(tables := Put(s.tables, a, p, Touch(s.tables[a][p], writing)))
  }

  // ---------------------------------------------------------------- duplicatePage

  predicate CanCopy(s: Vm, a: nat, p: nat, dest: nat) {
    && a in s.tables && p < |s.tables[a]|
    && |s.frames| == |s.mem| == |s.bits| && |s.slots| == |s.swapBits|
    && dest < |s.frames| && s.tables[a][p].frame < |s.frames|
    && dest != s.tables[a][p].frame
    && (s.tables[a][p].file == Swap ==> Slot(s.tables[a][p]) < |s.slots|)
    && (forall b :: b in s.frames[s.tables[a][p].frame].owners ==>
          b in s.tables && s.frames[s.tables[a][p].frame].page < |s.tables[b]|)
  }

  /** Drop `a` from the owners of the slot behind entry `e`, if there is one. */
  function DropSlot(s: Vm, a: nat, e: Entry): Vm
    requires e.file == Swap ==> Slot(e) < |s.slots| && Slot(e) < |s.swapBits|
  {
    if e.file == Swap then
      s.(slots := s.slots[Slot(e) := Released(s.slots[Slot(e)], a)],
         swapBits := s.swapBits[Slot(e) := ReleasedBit(s.slots[Slot(e)], s.swapBits[Slot(e)])])
    else s
  }

  /** Drop `a` from the owners of frame `f`. */
  function DropFrame(s: Vm, a: nat, f: nat): Vm
    requires f < |s.frames| && f < |s.bits|
  {
    s.(frames := s.frames[f := Released(s.frames[f], a)],
       bits := s.bits[f := ReleasedBit(s.frames[f], s.bits[f])])
  }

  /** Clear the copy-on-write bit of the only owner of frame `f`, if it has just one. */
  function Unshare(s: Vm, f: nat): Vm
    requires f < |s.frames|
    requires forall b :: b in s.frames[f].owners ==> b in s.tables && s.frames[f].page < |s.tables[b]|
  {
    if |s.frames[f].owners| == 1 then
      var o := s.frames[f].owners[0];
      s.(tables := Put(s.tables, o, s.frames[f].page, s.tables[o][s.frames[f].page].(cow := false)))
    else s
  }

  /** `AddrSpace::duplicatePage`, once it has the frame `dest`. */
  function Copy(s: Vm, a: nat, p: nat, dest: nat): Vm
    requires CanCopy(s, a, p, dest)
  {
    var e := s.tables[a][p];
    var src := e.frame;
    var s1 := s.(frames := s.frames[dest := Owned(s.frames[dest], a, p)],
                 mem := s.mem[dest := s.mem[src]]);
    var s2 := DropSlot(DropFrame(s1, a, src), a, e);
    var s3 := Unshare(s2, src);
    var e3 := s3.tables[a][p];
    s3.(tables := Put(s3.tables, a, p,
      e3.(file := if e.file == Swap then NoFile else e3.file,
          cow := false, valid := true, frame := dest, use := false, time := 0, history := 0)))
  }

  // ---------------------------------------------------------------- storing bytes

  function Store(s: Vm, f: nat, off: nat, bytes: seq<bv8>): Vm
    requires f < |s.mem| && off + |bytes| <= |s.mem[f]|
  {
    s.(mem := s.mem[f := Splice(s.mem[f], off, bytes)])
  }

  // ---------------------------------------------------------------- fork

  predicate CanShare(s: Vm, cur: nat, child: nat) {
    && cur in s.tables && child in s.tables && cur != child
    && |s.tables[child]| < |s.tables[cur]|
    && var e := s.tables[cur][|s.tables[child]|];
       (e.file == Swap ==> Slot(e) < |s.slots|) && (e.valid ==> e.frame < |s.frames|)
  }

  predicate Sharing(e: Entry) {
    e.valid || e.file == Swap
  }

  /** The copy of an entry in the child (`CopyPageTable`), after the sharing loop
      of `CopyFrom` has seen it. */
  function ChildEntry(e: Entry): Entry {
    e.(use := false, history := 0, cow := e.cow || Sharing(e))
  }

  /** Give the child the next page of `cur`: the loop body of `CopyFrom`, with the
      child's table cut off behind the pages that the loop has seen. */
  function SharePage(s: Vm, cur: nat, child: nat): Vm
    requires CanShare(s, cur, child)
  {
    var i := |s.tables[child]|;
    var e := s.tables[cur][i];
    s.(slots := if e.file == Swap then s.slots[Slot(e) := Owned(s.slots[Slot(e)], child, i)] else s.slots,
       frames := if e.valid then s.frames[e.frame := Owned(s.frames[e.frame], child, i)] else s.frames,
       tables := Put(s.tables, cur, i, e.(cow := e.cow || Sharing(e)))[child := s.tables[child] + [ChildEntry(e)]])
  }

  /** A space with no pages yet and the initial working-set limit. */
  function AddSpace(s: Vm, a: nat, t: seq<Entry>): Vm {
    s.(tables := s.tables[a := t], wss := s.wss[a := MIN_WORKING_SET])
  }

  // ---------------------------------------------------------------- exit

  predicate CanDrop(s: Vm, a: nat, i: nat) {
    && a in s.tables && i < |s.tables[a]|
    && |s.frames| == |s.bits| && |s.slots| == |s.swapBits|
    && var e := s.tables[a][i];
    && (e.valid ==> e.frame < |s.frames|)
    && (e.file == Swap ==> Slot(e) < |s.slots|)
    && s.tables[a][0].frame < |s.frames|
    && (forall g, b :: 0 <= g < |s.frames| && b in s.frames[g].owners ==>
          b in s.tables && s.frames[g].page < |s.tables[b]|)
  }

  function Dead(e: Entry): Entry {
    e.(valid := false, file := NoFile)
  }

  /** The loop body of `~AddrSpace` for page `i`. The frame whose last owner it may
      unshare is the one of page 0, whatever page the loop is at. The entry that the
      loop leaves behind is marked dead, since nothing reads it again. */
  function DropPage(s: Vm, a: nat, i: nat): Vm
    requires CanDrop(s, a, i)
  {
    var e := s.tables[a][i];
    var s1 := if e.valid then DropFrame(s, a, e.frame) else s;
    var s2 := Unshare(s1, s.tables[a][0].frame);
    var s3 := DropSlot(s2, a, e);
    s3.(tables := Put(s3.tables, a, i, Dead(s3.tables[a][i])))
  }

  function RemoveSpace(s: Vm, a: nat): Vm {
    s.(tables := s.tables - {a}, wss := s.wss - {a})
  }
}
