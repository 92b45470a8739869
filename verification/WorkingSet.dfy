// The refresh of a working set from the aging bytes.

module WorkingSet {
  import opened FreeBits
  import opened Paging
  import opened Aging
  import opened AgingRuns
  import opened PagingOut
  import opened PagingRun
  import opened PagingTheorem
  import opened PagingPolicy
  import opened PagingKernel

  // ---------------------------------------------------------------- the refresh

  /** The limit for n referenced pages: n itself, or the nearer end of 4..32. */
  predicate LimitFor(n: nat, limit: int) {
    && 4 <= limit <= 32
    && (n < 4 ==> limit == 4)
    && (4 <= n <= 32 ==> limit == n)
    && (n > 32 ==> limit == 32)
  }

  ghost predicate SameAges(t: seq<Entry>, t': seq<Entry>) {
    |t'| == |t| && forall i :: 0 <= i < |t| ==> t'[i].history == t[i].history
  }

  ghost function OwnedFrames(s: Vm): set<nat> {
    set f: nat | f < |s.frames| && s.frames[f].owners != []
  }

  /** One pass of the contraction loop, from choosing the victim to paging it out. It
      fails only when there is no free swap slot, and then no page has gone. */
  method ContractOnce(k: Kernel, cur: nat) returns (ok: bool, ghost steps: seq<Step>)
    requires k.Valid() && cur in k.tables && cur in k.wss && TooMany(k.S(), cur)
    modifies k`tables, k`probe, k`frames, k`swap, k`slots, k`swapBits
    ensures k.Valid() && Abs(k.S()) == Abs(old(k.S())) && Leads(old(k.S()), steps, k.S())
    ensures cur in k.tables && SameAges(old(k.tables)[cur], k.tables[cur])
    ensures !ok ==> FirstClear(k.swapBits, 0) == |k.swapBits|
    ensures !ok ==> Valids(k.tables[cur]) == Valids(old(k.tables)[cur])
    ensures ok ==> Valids(old(k.tables)[cur]) - 1 <= Valids(k.tables[cur]) <= Valids(old(k.tables)[cur])
    ensures ok && k.policy != Dumb ==> Valids(k.tables[cur]) == Valids(old(k.tables)[cur]) - 1
    ensures ok ==> |OwnedFrames(k.S())| < |OwnedFrames(old(k.S()))|
  {
    hide Inv, Core, SameButUse, PageOut, CanPageOut, Abs, TooMany, Mapped, FirstOnProbe, FifoChoice, LruChoice, ScChoice;
    ghost var s := k.S();
    TooManyNotFree(s, cur);
    var v := k.ChooseVictim(cur, -1);
    ghost var mid := k.S();
    InvSelf(mid);
    ClearedAges(s.tables[cur], -1);
    ok := k.PageOutFrame(v);
    ContractLeads(s, mid, cur, v);
    steps := [Choosing(s, mid, cur, -1)];
    if ok {
      ContractEnds(s, mid, cur, v);
      steps := steps + [Contract(cur, v)];
    } else {
      InvSelf(s);
      UseAges(s, mid, cur);
      UseKeeps(s, mid);
      AbsSame(s, mid);
    }
  }

  /** Choosing a victim and paging it out are steps of a run. */
  lemma ContractLeads(s: Vm, mid: Vm, cur: nat, f: nat)
    requires Inv(s) && Inv(mid) && SameButUse(s, mid) && cur in s.tables && cur in s.wss && TooMany(s, cur)
    requires Chosen(s, mid, cur, -1)
    ensures Leads(s, [Choosing(s, mid, cur, -1)], mid)
    ensures CanPageOut(mid, f) ==> Leads(s, [Choosing(s, mid, cur, -1)] + [Contract(cur, f)], PageOut(mid, f))
  {
    UseAges(s, mid, cur);
    assert TooMany(mid, cur);
    hide Core, EnoughUsable, SameButUse, CanPageOut, PageOut, TooMany, Leads, Chosen, Choosing;
    ChooseLeads(s, mid, cur, -1);
    if CanPageOut(mid, f) {
      ThenLeads(s, mid, cur, -1, Contract(cur, f));
    }
  }

  lemma TooManyNotFree(s: Vm, a: nat)
    requires a in s.tables && a in s.wss && TooMany(s, a)
    ensures !FindsFree(s, a)
  {
  }

  lemma ClearedAges(t: seq<Entry>, notMe: int)
    ensures SameAges(t, t) && SameAges(t, Cleared(t, |t|, notMe))
  {
  }

  lemma UseAges(s: Vm, s': Vm, a: nat)
    requires SameButUse(s, s') && a in s.tables
    ensures a in s'.tables && Valids(s'.tables[a]) == Valids(s.tables[a])
  {
    var t, t' := s.tables[a], s'.tables[a];
    forall p | 0 <= p < |t| ensures t'[p].valid == t[p].valid {
      assert At(s.tables, a, p) == t[p] && At(s'.tables, a, p) == t'[p];
    }
    ValidsDrop(t, t', |t|);
  }

  lemma OutAges(s: Vm, f: nat, a: nat)
    requires CanPageOut(s, f) && a in s.tables
    ensures a in PageOut(s, f).tables && SameAges(s.tables[a], PageOut(s, f).tables[a])
  {
    OutTables(s, f);
    var t' := PageOut(s, f).tables;
    SameHas(s.tables, t');
    forall i | 0 <= i < |s.tables[a]| ensures t'[a][i].history == s.tables[a][i].history {
      assert At(s.tables, a, i) == s.tables[a][i] && At(t', a, i) == t'[a][i];
    }
  }

  lemma OutOwned(s: Vm, f: nat)
    requires CanPageOut(s, f)
    ensures |OwnedFrames(PageOut(s, f))| == |OwnedFrames(s)| - 1
  {
    assert OwnedFrames(PageOut(s, f)) == OwnedFrames(s) - {f};
  }

  lemma ContractEnds(s: Vm, mid: Vm, cur: nat, f: nat)
    requires Inv(s) && Inv(mid) && SameButUse(s, mid) && cur in s.tables && cur in s.wss && TooMany(s, cur)
    requires CanPageOut(mid, f) && mid.wss == s.wss
    requires SameAges(s.tables[cur], mid.tables[cur]) && mid.frames == s.frames
    ensures var s' := PageOut(mid, f);
      && Inv(s') && Abs(s') == Abs(s) && cur in s'.tables
      && SameAges(s.tables[cur], s'.tables[cur])
      && Valids(s.tables[cur]) - 1 <= Valids(s'.tables[cur]) <= Valids(s.tables[cur])
      && (cur in mid.frames[f].owners ==> Valids(s'.tables[cur]) == Valids(s.tables[cur]) - 1)
      && |OwnedFrames(s')| < |OwnedFrames(s)|
  {
    hide Core, SameButUse, CanPageOut, Abs, EnoughUsable;
    UseAges(s, mid, cur);
    UseKeeps(s, mid);
    AbsSame(s, mid);
    OutAges(mid, f, cur);
    OutOwned(mid, f);
    assert OwnedFrames(mid) == OwnedFrames(s);
    ContractKeeps(mid, cur, f);
    ContractCount(mid, cur, f, PageOut(mid, f));
    AbsSame(mid, PageOut(mid, f));
  }

  /** The counting loop of `refreshWss`. */
  method CountReferenced(t: seq<Entry>, mask: bv8) returns (n: nat)
    ensures n == Referenced(t, mask)
  {
    n := 0;
    var i := 0;
    while i < |t|
      invariant 0 <= i <= |t| && n == Referenced(t[..i], mask)
    {
      assert t[..i + 1][..i] == t[..i];
      if t[i].history & mask != 0 {
        n := n + 1;
      }
      i := i + 1;
    }
    assert t[..i] == t;
  }

  /** The first part of `refreshWss`. */
  method NewLimit(t: seq<Entry>, d: nat) returns (limit: int)
    requires Delta(d)
    ensures limit >= MIN_WORKING_SET && LimitFor(Referenced(t, DeltaMask(d)), limit)
  {
    limit := CountReferenced(t, DeltaMask(d));
    if limit < MIN_WORKING_SET {
      limit := MIN_WORKING_SET;
    } else if limit > MAX_WORKING_SET {
      limit := MAX_WORKING_SET;
    }
  }

  ghost predicate Slid(t: seq<Entry>, t': seq<Entry>) {
    |t'| == |t| && forall i :: 0 <= i < |t| ==> t'[i].history == t[i].history >> 1
  }

  /** The sliding loop of `refreshWss`. */
  method SlideAll(t: seq<Entry>) returns (t': seq<Entry>)
    ensures t' == SlidTable(t)
  {
    t' := t;
    var i := 0;
    while i < |t|
      invariant 0 <= i <= |t| && |t'| == |t|
      invariant forall j :: 0 <= j < i ==> t'[j] == SlidEntry(t[j])
      invariant forall j :: i <= j < |t| ==> t'[j] == t[j]
    {
      t' := t'[i := t'[i].(history := t'[i].history >> 1)];
      i := i + 1;
    }
  }

  /** The last part of `refreshWss`. */
  method SlideSpace(k: Kernel, cur: nat)
    requires k.Valid() && cur in k.tables
    modifies k`tables
    ensures k.Valid() && Abs(k.S()) == Abs(old(k.S())) && Leads(old(k.S()), [Slide(cur)], k.S())
    ensures cur in k.tables && Slid(old(k.tables)[cur], k.tables[cur])
    ensures Valids(k.tables[cur]) == Valids(old(k.tables)[cur])
  {
    hide Inv, Abs, Valids, Leads;
    SlideLeads(k.S(), cur);
    var t' := SlideAll(k.tables[cur]);
    k.tables := k.tables[cur := t'];
  }

  /** The contraction loop of `refreshWss`: it ends with the pages within the limit, or at
      a page-out that finds no free swap slot. */
  method ContractAll(k: Kernel, cur: nat) returns (ok: bool, ghost outs: nat, ghost steps: seq<Step>)
    requires k.Valid() && cur in k.tables && cur in k.wss
    modifies k`tables, k`probe, k`frames, k`swap, k`slots, k`swapBits
    ensures k.Valid() && Abs(k.S()) == Abs(old(k.S())) && Leads(old(k.S()), steps, k.S())
    ensures cur in k.tables && SameAges(old(k.tables)[cur], k.tables[cur])
    ensures !ok ==> FirstClear(k.swapBits, 0) == |k.swapBits|
    ensures !ok ==> k.wss[cur] < Valids(k.tables[cur]) <= Valids(old(k.tables)[cur])
    ensures ok ==>
      var n, limit := Valids(old(k.tables)[cur]), k.wss[cur];
      Valids(k.tables[cur]) == if n > limit then limit else n
    ensures k.policy != Dumb ==> outs == Valids(old(k.tables)[cur]) - Valids(k.tables[cur])
  {
    hide Inv, Core, Abs, OwnedFrames, Valids, Leads;
    ghost var s, t0 := k.S(), k.tables[cur];
    outs, steps := 0, [];
    LeadsNone(s);
    var over := k.TooManyFrames(cur);
    while over
      invariant k.Valid() && Abs(k.S()) == Abs(s) && Leads(s, steps, k.S())
      invariant cur in k.tables && over == TooMany(k.S(), cur)
      invariant SameAges(t0, k.tables[cur])
      invariant Valids(k.tables[cur]) == Valids(t0) || k.wss[cur] <= Valids(k.tables[cur]) <= Valids(t0)
      invariant k.policy != Dumb ==> Valids(k.tables[cur]) == Valids(t0) - outs
      decreases |OwnedFrames(k.S())|
    {
      ghost var before := k.S();
      ghost var more;
      var done;
      done, more := ContractOnce(k, cur);
      LeadsOn(s, steps, before, more, k.S());
      steps := steps + more;
      if !done {
        return false, outs, steps;
      }
      outs := outs + 1;
      over := k.TooManyFrames(cur);
    }
    ok := true;
  }

  /** `Thread::refreshWss`. The limit becomes the number of recently referenced pages, kept
      within 4..32; contraction, if it is on, ends with exactly the pages over the limit gone;
      nobody's memory changes; and every aging byte of the space slides by one. It fails
      only at a page-out that finds no free swap slot, and keeps the aging bytes then. */
  method RefreshWss(k: Kernel, cur: nat, d: nat, contract: bool)
    returns (ok: bool, ghost outs: nat, ghost steps: seq<Step>)
    requires k.Valid() && cur in k.tables && Delta(d)
    modifies k`tables, k`wss, k`probe, k`frames, k`swap, k`slots, k`swapBits
    ensures k.Valid() && Abs(k.S()) == Abs(old(k.S())) && cur in k.tables && Leads(old(k.S()), steps, k.S())
    ensures cur in k.wss && LimitFor(Referenced(old(k.tables)[cur], DeltaMask(d)), k.wss[cur])
    ensures CountsRecent(old(k.S()), cur, d, k.wss[cur])
    ensures !ok ==> contract && FirstClear(k.swapBits, 0) == |k.swapBits|
    ensures !ok ==> k.wss[cur] < Valids(k.tables[cur]) <= Valids(old(k.tables)[cur])
    ensures ok ==>
      var n, limit := Valids(old(k.tables)[cur]), k.wss[cur];
      Valids(k.tables[cur]) == if contract && n > limit then limit else n
    ensures k.policy != Dumb ==> outs == Valids(old(k.tables)[cur]) - Valids(k.tables[cur])
    ensures if ok then Slid(old(k.tables)[cur], k.tables[cur]) else SameAges(old(k.tables)[cur], k.tables[cur])
  {
    hide Inv, Core, Abs, DeltaMask, Referenced, OwnedFrames, Valids, Leads, CountsRecent, LimitFor;
    ghost var s := k.S();
    var limit := NewLimit(k.tables[cur], d);
    LimitRecent(s, cur, d, limit);
    LimitLeads(s, cur, limit);
    k.wss := k.wss[cur := limit];
    ghost var s1 := k.S();
    outs, steps := 0, [SetLimit(cur, limit)];
    if contract {
      ghost var more;
      ok, outs, more := ContractAll(k, cur);
      LeadsOn(s, steps, s1, more, k.S());
      steps := steps + more;
      if !ok {
        return;
      }
    }
    ghost var s2 := k.S();
    SlideSpace(k, cur);
    LeadsOn(s, steps, s2, [Slide(cur)], k.S());
    steps := steps + [Slide(cur)];
    ok := true;
  }

  /** The limit is that for the number of pages that were referenced in the last d windows,
      of any run from start-up that leads to s. */
  ghost predicate CountsRecent(s: Vm, a: nat, d: nat, limit: int) {
    forall s0: Vm, run: seq<Step> :: Reaches(s0, run, s) ==> LimitFor(|RecentPages(s0, run, a, d)|, limit)
  }

  lemma LimitRecent(s: Vm, a: nat, d: nat, limit: int)
    requires a in s.tables && Delta(d) && LimitFor(Referenced(s.tables[a], DeltaMask(d)), limit)
    ensures CountsRecent(s, a, d, limit)
  {
    hide DeltaMask, Referenced, LimitFor;
    forall s0: Vm, run: seq<Step> | Reaches(s0, run, s)
      ensures Referenced(s.tables[a], DeltaMask(d)) == |RecentPages(s0, run, a, d)|
    {
      CountIsReferenced(s0, run, s, a, d);
    }
  }

  lemma LimitLeads(s: Vm, a: nat, n: int)
    requires Inv(s) && a in s.tables && n >= MIN_WORKING_SET
    ensures var s' := s.(wss := s.wss[a := n]);
      a in s.wss && Inv(s') && Abs(s') == Abs(s) && Leads(s, [SetLimit(a, n)], s')
  {
    LimitAtLeast(s, a);
    StepRefines(s, SetLimit(a, n));
    LeadsOne(s, SetLimit(a, n));
  }

  lemma SlideLeads(s: Vm, a: nat)
    requires Inv(s) && a in s.tables
    ensures var s' := s.(tables := s.tables[a := SlidTable(s.tables[a])]);
      Inv(s') && Abs(s') == Abs(s) && Leads(s, [Slide(a)], s')
    ensures Valids(SlidTable(s.tables[a])) == Valids(s.tables[a])
  {
    StepRefines(s, Slide(a));
    LeadsOne(s, Slide(a));
    ValidsDrop(s.tables[a], SlidTable(s.tables[a]), |s.tables[a]|);
  }
}
