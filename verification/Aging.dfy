// The aging byte of a page: what the events in its life leave in it.

module Aging {

  /** What happens to a page's aging byte: a reference sets the top bit, a refresh
      slides it, and a new table or a copy clears it. */
  datatype Event = Touched | Aged | Forgotten

  function Shifted(h: bv8, ev: Event): bv8 {
    match ev
    case Touched => h | 0x80
    case Aged => h >> 1
    case Forgotten => 0
  }

  /** The byte h after some events, oldest first. */
  function After(h: bv8, evs: seq<Event>): bv8
    decreases |evs|
  {
    if evs == [] then h else Shifted(After(h, evs[..|evs| - 1]), evs[|evs| - 1])
  }

  function History(evs: seq<Event>): bv8 {
    After(0, evs)
  }

  lemma {:induction false} AfterAdd(h: bv8, xs: seq<Event>, ys: seq<Event>)
    ensures After(h, xs + ys) == After(After(h, xs), ys)
    decreases |ys|
  {
    hide Shifted;
    if ys == [] {
      assert xs + ys == xs;
    } else {
      var n := |ys| - 1;
      AfterAdd(h, xs, ys[..n]);
      assert (xs + ys)[..|xs| + n] == xs + ys[..n];
    }
  }

  // ---------------------------------------------------------------- what the bits say

  /** How many refreshes there are from event i on. */
  function Refreshes(evs: seq<Event>, i: nat): nat
    requires i <= |evs|
    decreases |evs| - i
  {
    if i == |evs| then 0 else (if evs[i].Aged? then 1 else 0) + Refreshes(evs, i + 1)
  }

  /** Event i is a reference, made j refreshes ago, and the byte was not cleared since. */
  ghost predicate IsRef(evs: seq<Event>, i: nat, j: nat) {
    && i < |evs| && evs[i] == Touched && Refreshes(evs, i + 1) == j
    && forall k :: i < k < |evs| ==> evs[k] != Forgotten
  }

  /** The page was referenced in the window `j` refreshes ago, and not cleared since. */
  ghost predicate RefAgo(evs: seq<Event>, j: nat) {
    exists i: nat :: IsRef(evs, i, j)
  }

  lemma {:induction false} RefreshesLast(evs: seq<Event>, i: nat)
    requires i < |evs|
    ensures var n := |evs| - 1;
      Refreshes(evs, i) == Refreshes(evs[..n], i) + if evs[n].Aged? then 1 else 0
    decreases |evs| - i
  {
    var n := |evs| - 1;
    if i < n {
      RefreshesLast(evs, i + 1);
      assert evs[..n][i] == evs[i];
    } else {
      assert Refreshes(evs, i + 1) == 0 && Refreshes(evs[..n], i) == 0;
    }
  }

  /** A reference that is not the last event was one before that event too. */
  lemma IsRefEarlier(evs: seq<Event>, i: nat, j: nat)
    requires i < |evs| - 1
    ensures var n := |evs| - 1;
      IsRef(evs, i, j) <==>
        match evs[n]
        case Touched => IsRef(evs[..n], i, j)
        case Aged => j > 0 && IsRef(evs[..n], i, j - 1)
        case Forgotten => false
  {
    var n := |evs| - 1;
    RefreshesLast(evs, i + 1);
    assert evs[..n][i] == evs[i];
    assert forall k :: i < k < n ==> evs[..n][k] == evs[k];
  }

  /** What the last event makes of the references. */
  lemma RefAgoLast(evs: seq<Event>, j: nat)
    requires evs != []
    ensures var before := evs[..|evs| - 1];
      RefAgo(evs, j) <==>
        match evs[|evs| - 1]
        case Touched => j == 0 || RefAgo(before, j)
        case Aged => j > 0 && RefAgo(before, j - 1)
        case Forgotten => false
  {
    var n := |evs| - 1;
    var before := evs[..n];
    assert Refreshes(evs, n + 1) == 0;
    if evs[n] == Touched {
      assert IsRef(evs, n, 0);
    }
    if RefAgo(evs, j) {
      var i: nat :| IsRef(evs, i, j);
      if i < n {
        IsRefEarlier(evs, i, j);
      }
    }
    if evs[n] == Touched && RefAgo(before, j) {
      var i: nat :| IsRef(before, i, j);
      IsRefEarlier(evs, i, j);
    }
    if evs[n] == Aged && j > 0 && RefAgo(before, j - 1) {
      var i: nat :| IsRef(before, i, j - 1);
      IsRefEarlier(evs, i, j);
    }
  }

  function Mask(j: nat): bv8 {
    match j
    case 0 => 0x80
    case 1 => 0x40
    case 2 => 0x20
    case 3 => 0x10
    case 4 => 0x08
    case 5 => 0x04
    case 6 => 0x02
    case _ => 0x01
  }

  predicate Bit(h: bv8, j: nat) {
    h & Mask(j) != 0
  }

  lemma BitReferenced(h: bv8, j: nat)
    requires j < 8
    ensures Bit(h | 0x80, j) <==> j == 0 || Bit(h, j)
  {
  }

  lemma NoBits(j: nat)
    ensures !Bit(0, j)
  {
  }

  lemma BitSlid(h: bv8, j: nat)
    requires j < 8
    ensures Bit(h >> 1, j) <==> j > 0 && Bit(h, j - 1)
  {
  }

  /** Bit 7 - j of the aging byte records a reference j refreshes ago. */
  lemma {:induction false} AgingByte(evs: seq<Event>, j: nat)
    requires j < 8
    ensures Bit(History(evs), j) <==> RefAgo(evs, j)
    decreases |evs|
  {
    hide Bit, IsRef;
    if evs == [] {
      NoBits(j);
      assert !RefAgo(evs, j) by { NoEvents(j); }
    } else {
      RefAgoLast(evs, j);
      hide RefAgo;
      var before := evs[..|evs| - 1];
      AgingByte(before, j);
      match evs[|evs| - 1] {
        case Touched =>
          BitReferenced(History(before), j);
        case Aged =>
          BitSlid(History(before), j);
          if j > 0 {
            AgingByte(before, j - 1);
          }
        case Forgotten =>
          NoBits(j);
      }
    }
  }

  lemma NoEvents(j: nat)
    ensures !RefAgo([], j)
  {
  }

  /** In the last of the last eight windows in which they differ, the second page was
      referenced and the first was not. */
  ghost predicate LessRecent(evs: seq<Event>, evs': seq<Event>) {
    exists j: nat :: j < 8 && !RefAgo(evs, j) && RefAgo(evs', j) && SameAgo(evs, evs', j)
  }

  /** The two pages were referenced in the same of the last j windows. */
  ghost predicate SameAgo(evs: seq<Event>, evs': seq<Event>, j: nat) {
    forall i: nat :: i < j ==> (RefAgo(evs, i) <==> RefAgo(evs', i))
  }

  lemma DifferentBit(h: bv8, h': bv8, i: nat)
    requires i < 8
    ensures (h ^ h') & Mask(i) == 0 <==> (Bit(h, i) <==> Bit(h', i))
  {
  }

  function HighestMask(x: bv8): nat {
    if x & 0x80 != 0 then 0 else if x & 0x40 != 0 then 1 else if x & 0x20 != 0 then 2
    else if x & 0x10 != 0 then 3 else if x & 0x08 != 0 then 4 else if x & 0x04 != 0 then 5
    else if x & 0x02 != 0 then 6 else 7
  }

  lemma HighestIs(x: bv8, i: nat)
    requires x != 0
    ensures HighestMask(x) < 8 && x & Mask(HighestMask(x)) != 0
    ensures i < HighestMask(x) ==> x & Mask(i) == 0
  {
  }

  lemma HighestDecides(h: bv8, h': bv8)
    requires h < h'
    ensures h ^ h' != 0 && h' & Mask(HighestMask(h ^ h')) != 0
  {
  }

  /** Numbers compare by their first different bit. */
  lemma SmallerByte(h: bv8, h': bv8) returns (j: nat)
    requires h < h'
    ensures j < 8 && !Bit(h, j) && Bit(h', j)
    ensures forall i: nat :: i < j ==> (Bit(h, i) <==> Bit(h', i))
  {
    HighestDecides(h, h');
    j := HighestMask(h ^ h');
    HighestIs(h ^ h', 0);
    hide HighestMask, Mask;
    DifferentBit(h, h', j);
    hide Bit;
    forall i: nat | i < j ensures Bit(h, i) <==> Bit(h', i) {
      HighestIs(h ^ h', i);
      DifferentBit(h, h', i);
    }
  }

  /** A smaller byte means a page that was referenced less recently, and equal bytes mean
      pages that were referenced in the same of the last eight windows. */
  lemma SmallerHistory(evs: seq<Event>, evs': seq<Event>)
    ensures History(evs) < History(evs') ==> LessRecent(evs, evs')
    ensures History(evs) == History(evs') ==> SameAgo(evs, evs', 8)
  {
    hide Bit, RefAgo, History;
    forall i: nat | i < 8
      ensures (Bit(History(evs), i) <==> RefAgo(evs, i)) && (Bit(History(evs'), i) <==> RefAgo(evs', i))
    {
      AgingByte(evs, i);
      AgingByte(evs', i);
    }
    if History(evs) < History(evs') {
      var j := SmallerByte(History(evs), History(evs'));
      assert SameAgo(evs, evs', j);
    }
  }

  predicate Delta(d: nat) {
    d == 1 || d == 2 || d == 4 || d == 8
  }

  /** The mask that `refreshWss` picks for the configured window count. */
  function DeltaMask(d: nat): bv8
    requires Delta(d)
  {
    if d == 1 then 0x80 else if d == 2 then 0xC0 else if d == 4 then 0xF0 else 0xFF
  }

  lemma MaskedBits(h: bv8, d: nat)
    requires Delta(d)
    ensures h & DeltaMask(d) != 0 <==> exists j: nat :: j < d && Bit(h, j)
  {
    assert h & 0x80 != 0 <==> Bit(h, 0);
    assert h & 0xC0 != 0 <==> Bit(h, 0) || Bit(h, 1);
    assert h & 0xF0 != 0 <==> Bit(h, 0) || Bit(h, 1) || Bit(h, 2) || Bit(h, 3);
    assert h & 0xFF != 0 <==> Bit(h, 0) || Bit(h, 1) || Bit(h, 2) || Bit(h, 3)
                              || Bit(h, 4) || Bit(h, 5) || Bit(h, 6) || Bit(h, 7);
  }

  /** The page was referenced in one of the last `d` windows. */
  ghost predicate Recent(evs: seq<Event>, d: nat) {
    exists j: nat :: j < d && RefAgo(evs, j)
  }

  /** The masked byte is not zero exactly if the page was referenced in one of the last
      `d` windows, the current one included. */
  lemma MaskedHistory(evs: seq<Event>, d: nat)
    requires Delta(d)
    ensures History(evs) & DeltaMask(d) != 0 <==> Recent(evs, d)
  {
    hide Bit, RefAgo, History, DeltaMask;
    var h := History(evs);
    MaskedBits(h, d);
    if h & DeltaMask(d) != 0 {
      var j: nat :| j < d && Bit(h, j);
      AgingByte(evs, j);
    }
    if Recent(evs, d) {
      var j: nat :| j < d && RefAgo(evs, j);
      AgingByte(evs, j);
    }
  }
}
