// The index of breakpoints and watchpoints: an array searched by bisection.

module Breakpoints {
  datatype BreakpointType = SoftwareBp | HardwareBp | WriteWp | ReadWp | AccessWp

  /** A break- or watchpoint on the addresses from start to end, both included. */
  datatype Breakpoint = Breakpoint(start: int, end: int, kind: BreakpointType)

  const BP_SET_INIT: nat := 64
  const BP_SET_INC: nat := 32

  predicate Covers(b: Breakpoint, address: int) {
    b.start <= address <= b.end
  }

  // ---------------------------------------------------------------- what the code computes

  function Middle(low: int, high: int): (m: int)
    requires low <= high
    ensures low <= m <= high
  {
    (low + high) / 2
  }

  /** The bisection. */
  function Bisect(s: seq<Breakpoint>, address: int, low: int, high: int): (r: int)
    requires 0 <= low <= high + 1 <= |s|
    ensures 0 <= r <= |s|
    decreases high - low + 1
  {
    if low > high then low
    else
      var mid := Middle(low, high);
      if Covers(s[mid], address) then mid
      else if address < s[mid].start then Bisect(s, address, low, mid - 1)
      else Bisect(s, address, mid + 1, high)
  }

  /** Back to the first range with the address. */
  function BackUp(s: seq<Breakpoint>, address: int, low: nat): (r: nat)
    requires low <= |s|
    ensures r <= low
  {
    if low > 0 && Covers(s[low - 1], address) then BackUp(s, address, low - 1) else low
  }

  function FindAddr(s: seq<Breakpoint>, address: int): (r: nat)
    ensures r <= |s|
  {
    BackUp(s, address, Bisect(s, address, 0, |s| - 1))
  }

  function Added(s: seq<Breakpoint>, b: Breakpoint): seq<Breakpoint> {
    var k := FindAddr(s, b.start);
    s[..k] + [b] + s[k..]
  }

  function Without(s: seq<Breakpoint>, k: nat): seq<Breakpoint>
    requires k < |s|
  {
    s[..k] + s[k + 1..]
  }

  /** The loop of `removeBreakpoint` from index k on: behind an entry that it removes, it
      passes over the entry that takes its place. */
  function RemoveFrom(s: seq<Breakpoint>, b: Breakpoint, k: nat): seq<Breakpoint>
    decreases |s| - k
  {
    if k >= |s| || !Covers(s[k], b.start) then s
    else if s[k] == b then RemoveFrom(Without(s, k), b, k + 1)
    else RemoveFrom(s, b, k + 1)
  }

  function Removed(s: seq<Breakpoint>, b: Breakpoint): seq<Breakpoint> {
    RemoveFrom(s, b, FindAddr(s, b.start))
  }

  /** What a query for `kind` looks for. */
  predicate Compatible(kind: BreakpointType, other: BreakpointType) {
    match kind
    case SoftwareBp => other == SoftwareBp || other == HardwareBp
    case HardwareBp => other == SoftwareBp || other == HardwareBp
    case WriteWp => other == WriteWp || other == AccessWp
    case ReadWp => other == ReadWp || other == AccessWp
    case AccessWp => other == AccessWp
  }

  // ---------------------------------------------------------------- sorted, without overlaps

  predicate SameOrApart(a: Breakpoint, b: Breakpoint) {
    (a.start == b.start && a.end == b.end) || a.end < b.start || b.end < a.start
  }

  /** In order, and any two ranges equal or disjoint. */
  ghost predicate Sorted(s: seq<Breakpoint>) {
    && (forall i :: 0 <= i < |s| ==> s[i].start <= s[i].end)
    && (forall i, j :: 0 <= i < j < |s| ==>
          (s[i].start == s[j].start && s[i].end == s[j].end) || s[i].end < s[j].start)
  }

  /** r ranges lie before the address, and no others. */
  ghost predicate Splits(s: seq<Breakpoint>, address: int, r: nat) {
    && r <= |s|
    && (forall i :: 0 <= i < r ==> s[i].end < address)
    && (forall i :: r <= i < |s| ==> address <= s[i].end)
  }

  /** Where bisection may end: nothing before the place is beyond the address, nothing
      behind it ends before it. */
  ghost predicate Near(s: seq<Breakpoint>, address: int, r: int) {
    && 0 <= r <= |s|
    && (forall i :: 0 <= i < r ==> s[i].end < address || Covers(s[i], address))
    && (forall i :: r <= i < |s| ==> address <= s[i].end)
  }

  /** What bisection between low and high has ruled out. */
  ghost predicate Ruled(s: seq<Breakpoint>, address: int, low: int, high: int) {
    && (forall i :: 0 <= i < low && i < |s| ==> s[i].end < address)
    && (forall i :: 0 <= i && high < i < |s| ==> address < s[i].start)
  }

  lemma {:induction false} BisectFinds(s: seq<Breakpoint>, address: int, low: int, high: int)
    requires Sorted(s) && 0 <= low <= high + 1 <= |s| && Ruled(s, address, low, high)
    ensures Near(s, address, Bisect(s, address, low, high))
    decreases high - low + 1
  {
    hide Bisect, Sorted, Near, Ruled, Middle;
    BisectStep(s, address, low, high);
    if low > high {
      NoneLeft(s, address, low, high);
    } else {
      var mid := Middle(low, high);
      if Covers(s[mid], address) {
        AllAround(s, address, mid);
      } else if address < s[mid].start {
        AllBeyond(s, address, low, mid, high);
        BisectFinds(s, address, low, mid - 1);
      } else {
        AllBefore(s, address, low, mid, high);
        BisectFinds(s, address, mid + 1, high);
      }
    }
  }

  lemma BisectStep(s: seq<Breakpoint>, address: int, low: int, high: int)
    requires 0 <= low <= high + 1 <= |s|
    ensures Bisect(s, address, low, high) ==
        if low > high then low
        else
          var mid := Middle(low, high);
          if Covers(s[mid], address) then mid
          else if address < s[mid].start then Bisect(s, address, low, mid - 1)
          else Bisect(s, address, mid + 1, high)
  {
  }

  lemma NoneLeft(s: seq<Breakpoint>, address: int, low: int, high: int)
    requires Sorted(s) && 0 <= low == high + 1 <= |s| && Ruled(s, address, low, high)
    ensures Near(s, address, low)
  {
  }

  lemma AllAround(s: seq<Breakpoint>, address: int, mid: nat)
    requires Sorted(s) && mid < |s| && Covers(s[mid], address)
    ensures Near(s, address, mid)
  {
  }

  lemma AllBeyond(s: seq<Breakpoint>, address: int, low: int, mid: int, high: int)
    requires Sorted(s) && Ruled(s, address, low, high) && 0 <= low <= mid <= high < |s| && address < s[mid].start
    ensures Ruled(s, address, low, mid - 1)
  {
  }

  lemma AllBefore(s: seq<Breakpoint>, address: int, low: int, mid: int, high: int)
    requires Sorted(s) && Ruled(s, address, low, high) && 0 <= low <= mid <= high < |s| && s[mid].end < address
    ensures Ruled(s, address, mid + 1, high)
  {
  }

  lemma {:induction false} BackUpFinds(s: seq<Breakpoint>, address: int, low: nat)
    requires Sorted(s) && Near(s, address, low)
    ensures Splits(s, address, BackUp(s, address, low))
  {
    if low > 0 && Covers(s[low - 1], address) {
      BackUpFinds(s, address, low - 1);
    }
  }

  /** The search finds the first range with the address, or else the first beyond it. */
  lemma FindAddrSplits(s: seq<Breakpoint>, address: int)
    requires Sorted(s)
    ensures Splits(s, address, FindAddr(s, address))
  {
    BisectFinds(s, address, 0, |s| - 1);
    BackUpFinds(s, address, Bisect(s, address, 0, |s| - 1));
  }

  /** Adding keeps the index in order if and only if the new range is not empty, and
      equal to or disjoint from each range in it. */
  lemma AddedSorted(s: seq<Breakpoint>, b: Breakpoint)
    requires Sorted(s)
    ensures Sorted(Added(s, b)) <==>
      b.start <= b.end && forall i :: 0 <= i < |s| ==> SameOrApart(s[i], b)
  {
    FindAddrSplits(s, b.start);
    var k, t := FindAddr(s, b.start), Added(s, b);
    assert t == s[..k] + [b] + s[k..];
    hide FindAddr, Sorted, Splits, SameOrApart, Added;
    if Sorted(t) {
      AddedOnlyIf(s, b, k, t);
    }
    if b.start <= b.end && forall i :: 0 <= i < |s| ==> SameOrApart(s[i], b) {
      AddedIf(s, b, k, t);
    }
  }

  lemma AddedHas(s: seq<Breakpoint>, b: Breakpoint)
    ensures multiset(Added(s, b)) == multiset(s) + multiset{b}
  {
    var k := FindAddr(s, b.start);
    hide FindAddr;
    assert s == s[..k] + s[k..];
  }

  lemma AddedOnlyIf(s: seq<Breakpoint>, b: Breakpoint, k: nat, t: seq<Breakpoint>)
    requires k <= |s| && t == s[..k] + [b] + s[k..] && Sorted(t)
    ensures b.start <= b.end && forall i :: 0 <= i < |s| ==> SameOrApart(s[i], b)
  {
    assert t[k] == b;
    forall i | 0 <= i < |s| ensures SameOrApart(s[i], b) {
      if i < k {
        assert t[i] == s[i];
      } else {
        assert t[i + 1] == s[i];
      }
    }
  }

  lemma AddedIf(s: seq<Breakpoint>, b: Breakpoint, k: nat, t: seq<Breakpoint>)
    requires Sorted(s) && Splits(s, b.start, k) && t == s[..k] + [b] + s[k..]
    requires b.start <= b.end && forall i :: 0 <= i < |s| ==> SameOrApart(s[i], b)
    ensures Sorted(t)
  {
    forall i | 0 <= i < |t| ensures t[i] == if i < k then s[i] else if i == k then b else s[i - 1] {
    }
  }

  // ---------------------------------------------------------------- removing

  lemma {:induction false} RemoveFromSorted(s: seq<Breakpoint>, b: Breakpoint, k: nat)
    requires Sorted(s)
    ensures Sorted(RemoveFrom(s, b, k))
    decreases |s| - k
  {
    hide Sorted;
    if k < |s| && Covers(s[k], b.start) {
      if s[k] == b {
        WithoutAt(s, k, Without(s, k));
        RemoveFromSorted(Without(s, k), b, k + 1);
      } else {
        RemoveFromSorted(s, b, k + 1);
      }
    }
  }

  /** Two copies of b stand next to each other, from k on. */
  ghost predicate Twins(s: seq<Breakpoint>, b: Breakpoint, k: nat) {
    exists i :: k <= i < |s| - 1 && s[i] == b && s[i + 1] == b
  }

  /** What the loop at `k` has passed is not `b`, and what it has not passed does not end
      before `b` starts. */
  ghost predicate Behind(s: seq<Breakpoint>, b: Breakpoint, k: nat) {
    && b.start <= b.end
    && (forall i :: 0 <= i < k && i < |s| ==> s[i] != b)
    && (forall i :: k <= i < |s| ==> b.start <= s[i].end)
  }

  lemma TwinsFrom(s: seq<Breakpoint>, b: Breakpoint, k: nat)
    requires Behind(s, b, k) && k < |s| && s[k] != b
    ensures Behind(s, b, k + 1) && (Twins(s, b, k) <==> Twins(s, b, k + 1))
  {
  }

  ghost predicate Has(s: seq<Breakpoint>, b: Breakpoint, k: nat) {
    exists i :: k <= i < |s| && s[i] == b
  }

  lemma RunHasAll(s: seq<Breakpoint>, b: Breakpoint, k: nat)
    requires Sorted(s) && b.start <= b.end && (k < |s| ==> !Covers(s[k], b.start) && b.start <= s[k].end)
    ensures !Has(s, b, k)
  {
    if k < |s| {
      assert s[k].start > b.start;
      forall i | k <= i < |s| ensures s[i] != b {
      }
    }
  }

  lemma RemoveStep(s: seq<Breakpoint>, b: Breakpoint, k: nat)
    requires k <= |s|
    ensures k == |s| || !Covers(s[k], b.start) ==> RemoveFrom(s, b, k) == s
    ensures k < |s| && Covers(s[k], b.start) ==>
      RemoveFrom(s, b, k) == RemoveFrom(if s[k] == b then Without(s, k) else s, b, k + 1)
  {
  }

  /** The entry behind one that is removed stays, whatever it is. */
  lemma TwinStays(s: seq<Breakpoint>, b: Breakpoint, k: nat)
    requires Behind(s, b, k) && k + 1 < |s| && s[k] == b && s[k + 1] == b
    ensures b in RemoveFrom(s, b, k) && Twins(s, b, k)
  {
    RemoveStep(s, b, k);
    var t := Without(s, k);
    assert t[k] == s[k + 1];
    hide RemoveFrom;
    KeptBehind(t, b, k + 1, k);
  }

  /** Where the loop stops no copy is left, in front or behind. */
  lemma StopsClean(s: seq<Breakpoint>, b: Breakpoint, k: nat)
    requires Sorted(s) && Behind(s, b, k) && k <= |s| && (k < |s| ==> !Covers(s[k], b.start))
    ensures b !in s && !Twins(s, b, k)
  {
    RunHasAll(s, b, k);
  }

  lemma {:induction false} RemoveFromGone(s: seq<Breakpoint>, b: Breakpoint, k: nat)
    requires Sorted(s) && Behind(s, b, k) && k <= |s|
    ensures b !in RemoveFrom(s, b, k) <==> !Twins(s, b, k)
    decreases |s| - k
  {
    RemoveStep(s, b, k);
    hide RemoveFrom, Sorted, Twins, Behind, Without;
    if k == |s| || !Covers(s[k], b.start) {
      StopsClean(s, b, k);
    } else if s[k] != b {
      TwinsFrom(s, b, k);
      RemoveFromGone(s, b, k + 1);
    } else if k + 1 < |s| && s[k + 1] == b {
      TwinStays(s, b, k);
    } else {
      OneGone(s, b, k, Without(s, k));
      if k + 1 <= |s| - 1 {
        RemoveFromGone(Without(s, k), b, k + 1);
      }
    }
  }

  /** Taking out a lone copy. */
  lemma OneGone(s: seq<Breakpoint>, b: Breakpoint, k: nat, t: seq<Breakpoint>)
    requires Sorted(s) && Behind(s, b, k) && k < |s| && s[k] == b && t == Without(s, k)
    requires k + 1 < |s| ==> s[k + 1] != b
    ensures |t| == |s| - 1 && Sorted(t) && Behind(t, b, k + 1)
    ensures Twins(s, b, k) <==> Twins(t, b, k + 1)
    ensures k == |t| ==> b !in RemoveFrom(t, b, k + 1) && !Twins(t, b, k + 1)
  {
    WithoutAt(s, k, t);
    TwinsWithout(s, b, k, t);
    if k == |t| {
      PastEnd(t, b, k + 1);
    }
  }

  lemma PastEnd(s: seq<Breakpoint>, b: Breakpoint, k: nat)
    requires k >= |s|
    ensures RemoveFrom(s, b, k) == s
  {
  }

  lemma WithoutAt(s: seq<Breakpoint>, k: nat, t: seq<Breakpoint>)
    requires Sorted(s) && k < |s| && t == Without(s, k)
    ensures |t| == |s| - 1 && Sorted(t)
    ensures forall i :: 0 <= i < |t| ==> t[i] == if i < k then s[i] else s[i + 1]
  {
  }

  lemma TwinsWithout(s: seq<Breakpoint>, b: Breakpoint, k: nat, t: seq<Breakpoint>)
    requires k < |s| && s[k] == b && t == Without(s, k) && (k + 1 < |s| ==> s[k + 1] != b)
    ensures Twins(s, b, k) <==> Twins(t, b, k + 1)
  {
    if Twins(s, b, k) {
      var i :| k <= i < |s| - 1 && s[i] == b && s[i + 1] == b;
      assert t[i - 1] == b && t[i] == b;
    }
    if Twins(t, b, k + 1) {
      var i :| k + 1 <= i < |t| - 1 && t[i] == b && t[i + 1] == b;
      assert s[i + 1] == b && s[i + 2] == b;
    }
  }

  /** The loop keeps what it has passed. */
  lemma {:induction false} KeptBehind(s: seq<Breakpoint>, b: Breakpoint, k: nat, i: nat)
    requires i < k && i < |s|
    ensures i < |RemoveFrom(s, b, k)| && RemoveFrom(s, b, k)[i] == s[i]
    decreases |s| - k
  {
    if k < |s| && Covers(s[k], b.start) {
      KeptBehind(if s[k] == b then Without(s, k) else s, b, k + 1, i);
    }
  }

  /** It removes nothing but copies of b. */
  lemma {:induction false} OthersKept(s: seq<Breakpoint>, b: Breakpoint, k: nat, c: Breakpoint)
    requires c != b
    ensures multiset(RemoveFrom(s, b, k))[c] == multiset(s)[c]
    decreases |s| - k
  {
    if k < |s| && Covers(s[k], b.start) {
      if s[k] == b {
        assert s == s[..k] + [b] + s[k + 1..];
        OthersKept(Without(s, k), b, k + 1, c);
      } else {
        OthersKept(s, b, k + 1, c);
      }
    }
  }

  /** Removing a breakpoint keeps the index in order and every other breakpoint in it. The
      breakpoint is gone if and only if no two copies of it stood next to each other; so a
      breakpoint that was added once is always removed. */
  lemma RemovedRight(s: seq<Breakpoint>, b: Breakpoint)
    requires Sorted(s) && b.start <= b.end
    ensures Sorted(Removed(s, b))
    ensures b !in Removed(s, b) <==> !Twins(s, b, 0)
    ensures forall c :: c != b ==> multiset(Removed(s, b))[c] == multiset(s)[c]
  {
    FindAddrSplits(s, b.start);
    var k := FindAddr(s, b.start);
    hide FindAddr;
    RemoveFromSorted(s, b, k);
    RemoveFromGone(s, b, k);
    assert Twins(s, b, 0) <==> Twins(s, b, k);
    forall c | c != b ensures multiset(Removed(s, b))[c] == multiset(s)[c] {
      OthersKept(s, b, k, c);
    }
  }

  /** Adding a breakpoint twice and removing it once leaves one. */
  lemma TwinSurvives(b: Breakpoint)
    requires b.start <= b.end
    ensures Added(Added([], b), b) == [b, b] && Removed([b, b], b) == [b]
  {
    FirstOfCopies([], b);
    FirstOfCopies([b], b);
    FirstOfCopies([b, b], b);
    hide FindAddr, RemoveFrom;
    assert Added([], b) == [b];
    OneOfTwo([b, b], b);
  }

  lemma FirstOfCopies(s: seq<Breakpoint>, b: Breakpoint)
    requires b.start <= b.end && forall i :: 0 <= i < |s| ==> s[i] == b
    ensures FindAddr(s, b.start) == 0
  {
    FindAddrSplits(s, b.start);
    hide FindAddr;
    assert s != [] ==> s[0] == b;
  }

  lemma OneOfTwo(s: seq<Breakpoint>, b: Breakpoint)
    requires b.start <= b.end && |s| == 2 && s[0] == b
    ensures RemoveFrom(s, b, 0) == [s[1]]
  {
    var t := Without(s, 0);
    assert t == [s[1]];
    assert RemoveFrom(t, b, 1) == t;
  }

  // ---------------------------------------------------------------- any sequence of changes

  datatype Change = Add(b: Breakpoint) | Remove(b: Breakpoint)

  function Changed(s: seq<Breakpoint>, c: Change): seq<Breakpoint> {
    match c
    case Add(b) => Added(s, b)
    case Remove(b) => Removed(s, b)
  }

  function After(cs: seq<Change>): seq<Breakpoint> {
    if cs == [] then [] else Changed(After(cs[..|cs| - 1]), cs[|cs| - 1])
  }

  /** The breakpoints that have been added and not removed since. */
  function Present(cs: seq<Change>): set<Breakpoint> {
    if cs == [] then {}
    else
      var before, c := Present(cs[..|cs| - 1]), cs[|cs| - 1];
      if c.Add? then before + {c.b} else before - {c.b}
  }

  /** No breakpoint is added that is there already, or overlaps another with a different
      range. */
  ghost predicate Proper(cs: seq<Change>) {
    forall n :: 0 <= n < |cs| ==>
      && cs[n].b.start <= cs[n].b.end
      && (cs[n].Add? ==>
            && cs[n].b !in Present(cs[..n])
            && forall c :: c in Present(cs[..n]) ==> SameOrApart(c, cs[n].b))
  }

  ghost predicate HoldsOnce(s: seq<Breakpoint>, m: set<Breakpoint>) {
    forall c :: multiset(s)[c] == if c in m then 1 else 0
  }

  lemma NoTwins(s: seq<Breakpoint>, b: Breakpoint)
    requires multiset(s)[b] <= 1
    ensures !Twins(s, b, 0)
  {
    forall i | 0 <= i < |s| - 1 && s[i] == b ensures s[i + 1] != b {
      assert s == s[..i] + [s[i], s[i + 1]] + s[i + 2..];
    }
  }

  lemma AddOnce(s: seq<Breakpoint>, m: set<Breakpoint>, b: Breakpoint)
    requires Sorted(s) && HoldsOnce(s, m) && b.start <= b.end && b !in m
    requires forall c :: c in m ==> SameOrApart(c, b)
    ensures Sorted(Added(s, b)) && HoldsOnce(Added(s, b), m + {b})
  {
    forall i | 0 <= i < |s| ensures SameOrApart(s[i], b) {
      assert s[i] in multiset(s);
    }
    AddedSorted(s, b);
    AddedHas(s, b);
    hide Added, Sorted, SameOrApart;
  }

  lemma RemoveOnce(s: seq<Breakpoint>, m: set<Breakpoint>, b: Breakpoint)
    requires Sorted(s) && HoldsOnce(s, m) && b.start <= b.end
    ensures Sorted(Removed(s, b)) && HoldsOnce(Removed(s, b), m - {b})
  {
    hide Removed, Sorted;
    assert multiset(s)[b] <= 1;
    NoTwins(s, b);
    RemovedRight(s, b);
    assert b !in multiset(Removed(s, b));
  }

  /** After any proper sequence of changes the index is in order, and holds each breakpoint
      that should be there exactly once. */
  lemma {:induction false} AlwaysSorted(cs: seq<Change>)
    requires Proper(cs)
    ensures Sorted(After(cs)) && HoldsOnce(After(cs), Present(cs))
    decreases |cs|
  {
    if cs == [] {
      assert multiset(After(cs)) == multiset{};
    } else {
      var n := |cs| - 1;
      ProperEarlier(cs, n);
      AlwaysSorted(cs[..n]);
      assert cs[n].b.start <= cs[n].b.end;
      hide Sorted, HoldsOnce, SameOrApart, Added, Removed;
      match cs[n] {
        case Add(b) => AddOnce(After(cs[..n]), Present(cs[..n]), b);
        case Remove(b) => RemoveOnce(After(cs[..n]), Present(cs[..n]), b);
      }
    }
  }

  lemma ProperEarlier(cs: seq<Change>, n: nat)
    requires Proper(cs) && n <= |cs|
    ensures Proper(cs[..n])
  {
    hide SameOrApart, Present;
    forall k | 0 <= k < n ensures cs[..n][k] == cs[k] && cs[..n][..k] == cs[..k] {
    }
  }

  // ---------------------------------------------------------------- querying

  /** b is on some address that the access of this length touches. */
  ghost predicate Meets(b: Breakpoint, address: int, length: int) {
    exists a :: address <= a < address + length && Covers(b, a)
  }

  lemma MeetsIs(b: Breakpoint, address: int, length: int)
    requires length >= 1 && b.start <= b.end
    ensures Meets(b, address, length) <==> address <= b.end && b.start <= address + length - 1
  {
    if address <= b.end && b.start <= address + length - 1 {
      assert Covers(b, if b.start <= address then address else b.start);
    }
  }

  /** Some breakpoint that a query for `kind` looks for is at this address. */
  ghost predicate BreaksAt(s: seq<Breakpoint>, kind: BreakpointType, a: int) {
    exists i :: 0 <= i < |s| && Compatible(kind, s[i].kind) && Covers(s[i], a)
  }

  /** a is the first address of the access with a breakpoint. */
  ghost predicate FirstBreak(s: seq<Breakpoint>, kind: BreakpointType, address: int, length: int, a: int) {
    && address <= a < address + length && BreaksAt(s, kind, a)
    && (forall x :: address <= x < a ==> !BreaksAt(s, kind, x))
  }

  lemma FirstHit(s: seq<Breakpoint>, kind: BreakpointType, address: int, length: int, r: nat, k: nat)
    requires Sorted(s) && Splits(s, address, r) && r <= k < |s| && length >= 1
    requires forall i :: r <= i < k ==> !Compatible(kind, s[i].kind)
    requires Compatible(kind, s[k].kind) && s[k].start <= address + length - 1
    ensures FirstBreak(s, kind, address, length, if address < s[k].start then s[k].start else address)
  {
    var a := if address < s[k].start then s[k].start else address;
    assert Covers(s[k], a);
    forall x | address <= x < a ensures !BreaksAt(s, kind, x) {
      forall i | 0 <= i < |s| && Compatible(kind, s[i].kind) ensures !Covers(s[i], x) {
        if i >= r {
          assert i == k || s[k].end < s[i].start || s[k].start == s[i].start;
        }
      }
    }
  }

  lemma NoHit(s: seq<Breakpoint>, kind: BreakpointType, address: int, length: int, r: nat, k: nat)
    requires Sorted(s) && Splits(s, address, r) && r <= k <= |s|
    requires forall i :: r <= i < k ==> !Compatible(kind, s[i].kind)
    requires k < |s| ==> s[k].start > address + length - 1
    ensures forall a :: address <= a < address + length ==> !BreaksAt(s, kind, a)
  {
    forall a, i | address <= a < address + length && 0 <= i < |s| && Compatible(kind, s[i].kind)
      ensures !Covers(s[i], a)
    {
      if i >= k {
        assert i == k || s[k].end < s[i].start || s[k].start == s[i].start;
      }
    }
  }

  class BreakpointSet {
    var entries: array<Breakpoint>
    var count: nat

    ghost predicate Valid()
      reads this, entries
    {
      count <= entries.Length
    }

    ghost function Contents(): (s: seq<Breakpoint>)
      requires Valid()
      reads this, entries
      ensures |s| == count
    {
      entries[..count]
    }

    constructor ()
      ensures Valid() && Contents() == [] && fresh(entries)
    {
      entries := new Breakpoint[BP_SET_INIT](_ => Breakpoint(0, 0, SoftwareBp));
      count := 0;
    }

    method FindIndex(address: int) returns (low: int)
      requires Valid()
      ensures low == FindAddr(Contents(), address)
    {
      ghost var s := Contents();
      low := 0;
      var high := count - 1;
      ghost var found := Bisect(s, address, 0, count - 1);
      while low <= high
        invariant 0 <= low <= high + 1 <= count && found == Bisect(s, address, low, high)
        decreases high - low + 1
      {
        var mid := (low + high) / 2;
        assert entries[mid] == s[mid];
        if entries[mid].start <= address && address <= entries[mid].end {
          low := mid;
          break;
        } else if address < entries[mid].start {
          high := mid - 1;
        } else {
          low := mid + 1;
        }
      }
      assert low == found;
      while low > 0 && entries[low - 1].start <= address && address <= entries[low - 1].end
        invariant 0 <= low <= count && BackUp(s, address, low) == FindAddr(s, address)
      {
        assert entries[low - 1] == s[low - 1];
        low := low - 1;
      }
      assert low > 0 ==> entries[low - 1] == s[low - 1];
    }

    /** A larger array with the same entries. */
    method Grow()
      requires Valid()
      modifies this
      ensures Valid() && fresh(entries) && entries.Length == old(entries.Length) + BP_SET_INC
      ensures count == old(count) && Contents() == old(Contents())
    {
      var newSet := new Breakpoint[entries.Length + BP_SET_INC](_ => Breakpoint(0, 0, SoftwareBp));
      var i := 0;
      while i < entries.Length
        invariant 0 <= i <= entries.Length && entries == old(entries) && count == old(count)
        invariant newSet[..i] == entries[..i] && entries[..] == old(entries[..])
      {
        newSet[i] := entries[i];
        i := i + 1;
      }
      assert newSet[..count] == newSet[..i][..count] == entries[..i][..count] == entries[..count];
      entries := newSet;
    }

    /** Moves the entries from k on up by one place. */
    method MoveUp(k: nat)
      requires Valid() && k <= count < entries.Length
      modifies entries
      ensures entries[..k] == old(entries[..k]) && entries[k + 1..count + 1] == old(entries[k..count])
    {
      var i := count;
      while i > k
        invariant k <= i <= count
        invariant entries[..i] == old(entries[..i]) && entries[i + 1..count + 1] == old(entries[i..count])
      {
        entries[i] := entries[i - 1];
        i := i - 1;
      }
    }

    /** Moves the entries behind k down by one place. */
    method MoveDown(k: nat)
      requires Valid() && k < count
      modifies entries
      ensures entries[..count - 1] == Without(old(Contents()), k)
    {
      ghost var s := Contents();
      var i := k;
      while i < count - 1
        invariant k <= i <= count - 1
        invariant forall j :: 0 <= j < i ==> entries[j] == s[if j < k then j else j + 1]
        invariant forall j :: i <= j < count ==> entries[j] == s[j]
      {
        entries[i] := entries[i + 1];
        i := i + 1;
      }
    }

    method InsertAt(k: nat, b: Breakpoint)
      requires Valid() && k <= count < entries.Length
      modifies this, entries
      ensures Valid() && entries == old(entries)
      ensures Contents() == old(Contents())[..k] + [b] + old(Contents())[k..]
    {
      ghost var s := Contents();
      MoveUp(k);
      assert entries[..k] == s[..k] && entries[k + 1..count + 1] == s[k..];
      entries[k] := b;
      count := count + 1;
      assert entries[..count] == entries[..k] + [b] + entries[k + 1..count];
    }

    method AddBreakpoint(address: int, length: int, kind: BreakpointType)
      requires Valid()
      modifies this, entries
      ensures Valid() && Contents() == Added(old(Contents()), Breakpoint(address, address + length - 1, kind))
      ensures entries == old(entries) || fresh(entries)
    {
      hide FindAddr;
      if entries.Length == count {
        Grow();
      }
      var k := FindIndex(address);
      InsertAt(k, Breakpoint(address, address + length - 1, kind));
    }

    method RemoveBreakpoint(address: int, length: int, kind: BreakpointType)
      requires Valid()
      modifies this, entries
      ensures Valid() && entries == old(entries)
      ensures Contents() == Removed(old(Contents()), Breakpoint(address, address + length - 1, kind))
    {
      ghost var s, b := Contents(), Breakpoint(address, address + length - 1, kind);
      var k := FindIndex(address);
      while k < count && entries[k].start <= address && address <= entries[k].end
        invariant Valid() && entries == old(entries) && k >= 0
        invariant RemoveFrom(Contents(), b, k) == Removed(s, b)
        decreases count - k
      {
        assert Contents()[k] == entries[k];
        if entries[k].start == address && entries[k].end == address + length - 1 && entries[k].kind == kind {
          ghost var t := Contents();
          MoveDown(k);
          count := count - 1;
          assert Contents() == Without(t, k);
        }
        k := k + 1;
      }
      assert k < count ==> Contents()[k] == entries[k];
    }

    /** A query on an ordered index is right: it finds a breakpoint if and only if one that
        it looks for meets the access, and reports the first address at which one does. */
    method QueryBreakpoint(address: int, length: int, kind: BreakpointType) returns (found: bool, breakAddr: int)
      requires Valid() && Sorted(Contents()) && length >= 1
      ensures found <==> exists i :: 0 <= i < count && Compatible(kind, Contents()[i].kind) && Meets(Contents()[i], address, length)
      // An instruction fetch, a store and a load.
      ensures kind == SoftwareBp ==>
        (found <==> exists b :: b in Contents() && b.kind in {SoftwareBp, HardwareBp} && Meets(b, address, length))
      ensures kind == WriteWp ==>
        (found <==> exists b :: b in Contents() && b.kind in {WriteWp, AccessWp} && Meets(b, address, length))
      ensures kind == ReadWp ==>
        (found <==> exists b :: b in Contents() && b.kind in {ReadWp, AccessWp} && Meets(b, address, length))
      ensures found ==> FirstBreak(Contents(), kind, address, length, breakAddr)
    {
      ghost var s := Contents();
      FindAddrSplits(s, address);
      var k := FindIndex(address);
      ghost var r := k;
      while k < count && entries[k].start <= address + length - 1
        invariant r <= k <= count
        invariant forall i :: r <= i < k ==> !Compatible(kind, s[i].kind)
      {
        assert entries[k] == s[k];
        if Compatible(kind, entries[k].kind) {
          breakAddr := if address < entries[k].start then entries[k].start else address;
          FirstHit(s, kind, address, length, r, k);
          MeetsIs(s[k], address, length);
          WhatStops(s, kind, address, length);
          hide Sorted, Splits, Meets, FirstBreak;
          return true, breakAddr;
        }
        k := k + 1;
      }
      assert k < count ==> entries[k] == s[k];
      NoHit(s, kind, address, length, r, k);
      forall i | 0 <= i < count && Compatible(kind, s[i].kind) ensures !Meets(s[i], address, length) {
        forall a | address <= a < address + length ensures !Covers(s[i], a) {
          assert !BreaksAt(s, kind, a);
        }
      }
      WhatStops(s, kind, address, length);
      hide Sorted, Splits, Meets;
      found, breakAddr := false, 0;
    }
  }

  /** A fetch is stopped by the two kinds of breakpoints, a store by watchpoints for writes
      and for all accesses, a load by those for reads and for all accesses. */
  lemma WhatStops(s: seq<Breakpoint>, kind: BreakpointType, address: int, length: int)
    ensures (exists i :: 0 <= i < |s| && Compatible(kind, s[i].kind) && Meets(s[i], address, length)) ==
      match kind
      case WriteWp => exists b :: b in s && b.kind in {WriteWp, AccessWp} && Meets(b, address, length)
      case ReadWp => exists b :: b in s && b.kind in {ReadWp, AccessWp} && Meets(b, address, length)
      case AccessWp => exists b :: b in s && b.kind == AccessWp && Meets(b, address, length)
      case _ => exists b :: b in s && b.kind in {SoftwareBp, HardwareBp} && Meets(b, address, length)
  {
    hide Meets;
  }
}
