// The page replacement policies. Each scans for a victim with one loop; the
// contracts say which page the scan ends on.

module PagingPolicy {
  import opened Arithmetic
  import opened Paging

  // ---------------------------------------------------------------- the probe

  const STRIDE: nat := 17

  /** Frame `i` may be taken: it is owned and it is not the excluded one. */
  predicate Eligible(frames: seq<Frame>, i: int, notMe: int) {
    0 <= i < |frames| && i != notMe && frames[i].owners != []
  }

  /** Where the probe is after `k` steps. */
  function Probe(start: nat, k: nat): nat {
    (start + STRIDE * k) % NUM_PHYS_PAGES
  }

  lemma ProbeNext(start: nat, k: nat)
    ensures (Probe(start, k) + STRIDE) % NUM_PHYS_PAGES == Probe(start, k + 1)
    ensures Probe(start, k) < NUM_PHYS_PAGES
  {
  }

  /** The stride is prime to the number of frames: the probe gets to every frame
      within one round. 113 is the inverse of 17 modulo 128. */
  lemma ProbeReaches(start: nat, f: nat) returns (k: nat)
    requires start < NUM_PHYS_PAGES && f < NUM_PHYS_PAGES
    ensures 1 <= k <= NUM_PHYS_PAGES && Probe(start, k) == f
  {
    var up := if start <= f then 0 else 1;
    var d := f - start + NUM_PHYS_PAGES * up;
    var q := 113 * d / NUM_PHYS_PAGES;
    k := 113 * d - NUM_PHYS_PAGES * q;
    if k == 0 {
      k, q := NUM_PHYS_PAGES, q - 1;
    }
    var m := 15 * d - STRIDE * q;
    assert start + STRIDE * k == f + NUM_PHYS_PAGES * (up + m);
    ModIs(start + STRIDE * k, NUM_PHYS_PAGES, up + m, f);
  }

  /** `Dumb_Choose_Victim`: the first eligible frame on the probe's way. It ends
      within one round if there is an eligible frame at all. */
  method DumbVictim(frames: seq<Frame>, start: nat, notMe: int) returns (i: nat, ghost steps: nat)
    requires |frames| == NUM_PHYS_PAGES && start < NUM_PHYS_PAGES
    requires exists f: nat :: Eligible(frames, f, notMe)
    ensures 1 <= steps <= NUM_PHYS_PAGES && i == Probe(start, steps)
    ensures Eligible(frames, i, notMe)
    ensures forall k: nat :: 1 <= k < steps ==> !Eligible(frames, Probe(start, k), notMe)
  {
    ghost var f: nat :| Eligible(frames, f, notMe);
    ghost var goal := ProbeReaches(start, f);
    i := (start + STRIDE) % NUM_PHYS_PAGES;
    steps := 1;
    assert i == Probe(start, 1);
    ProbeNext(start, 1);
    hide Probe;
    while i == notMe || frames[i].owners == []
      invariant 1 <= steps <= goal && i == Probe(start, steps) && i < NUM_PHYS_PAGES
      invariant forall k: nat :: 1 <= k < steps ==> !Eligible(frames, Probe(start, k), notMe)
      decreases goal - steps
    {
      ProbeNext(start, steps);
      i := (i + STRIDE) % NUM_PHYS_PAGES;
      steps := steps + 1;
      ProbeNext(start, steps);
    }
  }

  // ---------------------------------------------------------------- scans of a page table

  predicate Candidate(t: seq<Entry>, i: int, notMe: int) {
    0 <= i < |t| && t[i].valid && t[i].frame != notMe
  }

  /** `FIFO_Choose_Victim`. The first page table slot is taken unconditionally, any
      other only if it was loaded earlier than the best so far. */
  method FifoVictim(t: seq<Entry>, notMe: int) returns (victim: int, ghost best: int)
    requires forall i :: 0 <= i < |t| ==> t[i].time <= NEVER
    ensures victim >= 0 <==> exists i :: Candidate(t, i, notMe) && (i == 0 || t[i].time < NEVER)
    ensures victim >= 0 ==> Candidate(t, best, notMe) && victim == t[best].frame
    ensures victim >= 0 ==> forall i :: Candidate(t, i, notMe) ==>
      t[best].time < t[i].time || (t[best].time == t[i].time && best <= i)
  {
    victim := -1;
    best := -1;
    var victimTime := NEVER;
    var i := 0;
    while i < |t|
      invariant 0 <= i <= |t| && victimTime <= NEVER
      invariant victim >= 0 <==> exists j :: 0 <= j < i && Candidate(t, j, notMe) && (j == 0 || t[j].time < NEVER)
      invariant victim >= 0 ==> best < i && Candidate(t, best, notMe) && victim == t[best].frame && victimTime == t[best].time
      invariant victim < 0 ==> victimTime == NEVER
      invariant victim >= 0 ==> forall j :: 0 <= j < i && Candidate(t, j, notMe) ==>
        t[best].time < t[j].time || (t[best].time == t[j].time && best <= j)
    {
      if t[i].valid && t[i].frame != notMe {
        if i == 0 {
          victim, victimTime, best := t[i].frame, t[i].time, i;
        }
        if i > 0 {
          if t[i].time < victimTime {
            victim, victimTime, best := t[i].frame, t[i].time, i;
          }
        }
      }
      i := i + 1;
    }
  }

  /** The aging byte as a number: the longer a page was not referenced, the smaller. */
  function Age(e: Entry): nat {
    e.history as nat
  }

  /** Least recently used by the aging byte, then by load time. */
  predicate Older(e: Entry, e': Entry) {
    Age(e) < Age(e') || (Age(e) == Age(e') && e.time < e'.time)
  }

  /** The pair that the scan starts from, below which a page must be to be taken. */
  predicate LruTakes(e: Entry) {
    Age(e) < 0xFF || e.time < NEVER
  }

  lemma AgeIsByte(t: seq<Entry>)
    ensures forall i :: 0 <= i < |t| ==> Age(t[i]) <= 0xFF
  {
  }

  /** `LRU_Choose_Victim`. */
  method LruVictim(t: seq<Entry>, notMe: int) returns (victim: int, ghost best: int)
    requires forall i :: 0 <= i < |t| ==> t[i].time <= NEVER
    ensures victim >= 0 <==> exists i :: Candidate(t, i, notMe) && LruTakes(t[i])
    ensures victim >= 0 ==> Candidate(t, best, notMe) && victim == t[best].frame
    ensures victim >= 0 ==> forall i :: Candidate(t, i, notMe) ==> LruBefore(t, best, i)
  {
    victim := -1;
    best := -1;
    var victimHist, victimTime := 0xFF, NEVER;
    AgeIsByte(t);
    hide Age;
    var i := 0;
    while i < |t|
      invariant 0 <= i <= |t| && victimTime <= NEVER
      invariant victim >= 0 <==> exists j :: 0 <= j < i && Candidate(t, j, notMe) && LruTakes(t[j])
      invariant victim >= 0 ==> 0 <= best < i && Candidate(t, best, notMe) && victim == t[best].frame
      invariant victim >= 0 ==> victimHist == Age(t[best]) && victimTime == t[best].time && LruTakes(t[best])
      invariant victim < 0 ==> victimHist == 0xFF && victimTime == NEVER
      invariant victim >= 0 ==> forall j :: 0 <= j < i && Candidate(t, j, notMe) ==>
        !Older(t[j], t[best]) && (j < best ==> Older(t[best], t[j]))
    {
      if t[i].valid && t[i].frame != notMe {
        if Age(t[i]) == victimHist {
          if victimTime > t[i].time {
            victim, victimTime, victimHist, best := t[i].frame, t[i].time, Age(t[i]), i;
          }
        } else if Age(t[i]) < victimHist {
          victim, victimTime, victimHist, best := t[i].frame, t[i].time, Age(t[i]), i;
        }
      }
      i := i + 1;
    }
    hide LruBefore;
    forall j | victim >= 0 && Candidate(t, j, notMe) ensures LruBefore(t, best, j) {
      NotOlder(t, best, j);
    }
  }

  lemma NotOlder(t: seq<Entry>, b: int, i: int)
    requires 0 <= b < |t| && 0 <= i < |t|
    requires !Older(t[i], t[b]) && (i < b ==> Older(t[b], t[i]))
    ensures LruBefore(t, b, i)
  {
  }

  // ---------------------------------------------------------------- second chance

  /** The class of a page: not used before used, clean before dirty. */
  function Class(e: Entry): nat {
    (if e.use then 2 else 0) + (if e.dirty then 1 else 0)
  }

  predicate InClass(t: seq<Entry>, i: int, notMe: int, c: nat) {
    Candidate(t, i, notMe) && t[i].time < NEVER && Class(t[i]) == c
  }

  /** Nothing in the first `n` entries is in class `c`. */
  predicate NoneIn(t: seq<Entry>, n: nat, notMe: int, c: nat) {
    forall i :: 0 <= i < n ==> !InClass(t, i, notMe, c)
  }

  /** `choice` is the oldest page of class `c` among the first `n`, if there is one. */
  ghost predicate Oldest(t: seq<Entry>, n: nat, notMe: int, c: nat, choice: int, time: nat) {
    && time <= NEVER
    && (choice < 0 <==> time == NEVER)
    && (choice < 0 <==> NoneIn(t, n, notMe, c))
    && (choice >= 0 ==> exists b :: IsOldest(t, n, notMe, c, b) && choice == t[b].frame && time == t[b].time)
  }

  ghost predicate IsOldest(t: seq<Entry>, n: nat, notMe: int, c: nat, b: int) {
    && 0 <= b < n && InClass(t, b, notMe, c)
    && forall i :: 0 <= i < n && InClass(t, i, notMe, c) ==> t[b].time <= t[i].time
  }

  lemma OldestSame(t: seq<Entry>, n: nat, notMe: int, c: nat, choice: int, time: nat)
    requires n < |t| && Oldest(t, n, notMe, c, choice, time)
    requires InClass(t, n, notMe, c) ==> time <= t[n].time
    ensures Oldest(t, n + 1, notMe, c, choice, time)
  {
    if choice >= 0 {
      var b :| IsOldest(t, n, notMe, c, b) && choice == t[b].frame && time == t[b].time;
      assert IsOldest(t, n + 1, notMe, c, b);
    }
  }

  lemma OldestNew(t: seq<Entry>, n: nat, notMe: int, c: nat, choice: int, time: nat)
    requires n < |t| && Oldest(t, n, notMe, c, choice, time)
    requires InClass(t, n, notMe, c) && t[n].time < time
    ensures Oldest(t, n + 1, notMe, c, t[n].frame, t[n].time)
  {
    if choice >= 0 {
      var b :| IsOldest(t, n, notMe, c, b) && choice == t[b].frame && time == t[b].time;
    }
    assert IsOldest(t, n + 1, notMe, c, n);
  }

  /** What the four slots of the scan hold: the first two are exact, the last two are
      exact as long as the lower ones are empty, since only pages that lose against
      a lower slot are filed too high. */
  ghost predicate Slots(t: seq<Entry>, n: nat, notMe: int, choice: seq<int>, time: seq<nat>) {
    && |choice| == |time| == 4
    && Oldest(t, n, notMe, 0, choice[0], time[0])
    && Oldest(t, n, notMe, 1, choice[1], time[1])
    && time[2] <= NEVER && time[3] <= NEVER
    && (choice[0] < 0 ==> Oldest(t, n, notMe, 2, choice[2], time[2]))
    && (choice[0] < 0 && choice[1] < 0 && choice[2] < 0 ==> Oldest(t, n, notMe, 3, choice[3], time[3]))
  }

  /** The table with the use bit of every candidate among the first `n` cleared. */
  function Cleared(t: seq<Entry>, n: nat, notMe: int): (r: seq<Entry>)
    ensures |r| == |t|
  {
    seq(|t|, i requires 0 <= i < |t| =>
      if i < n && Candidate(t, i, notMe) then t[i].(use := false) else t[i])
  }

  method FileEntry(t: seq<Entry>, i: nat, notMe: int, choice: seq<int>, time: seq<nat>)
    returns (choice': seq<int>, time': seq<nat>)
    requires i < |t| && t[i].time <= NEVER && Candidate(t, i, notMe) && Slots(t, i, notMe, choice, time)
    ensures Slots(t, i + 1, notMe, choice', time') && |choice'| == 4
  {
    choice', time' := choice, time;
    var e := t[i];
    if !e.use && !e.dirty && e.time < time[0] {
      choice', time' := choice[0 := e.frame], time[0 := e.time];
      OldestNew(t, i, notMe, 0, choice[0], time[0]);
      OldestSame(t, i, notMe, 1, choice[1], time[1]);
    } else if !e.use && e.dirty && e.time < time[1] {
      choice', time' := choice[1 := e.frame], time[1 := e.time];
      OldestSame(t, i, notMe, 0, choice[0], time[0]);
      OldestNew(t, i, notMe, 1, choice[1], time[1]);
      if choice[0] < 0 {
        OldestSame(t, i, notMe, 2, choice[2], time[2]);
      }
    } else {
      OldestSame(t, i, notMe, 0, choice[0], time[0]);
      OldestSame(t, i, notMe, 1, choice[1], time[1]);
      if !e.dirty && e.time < time[2] {
        choice', time' := choice[2 := e.frame], time[2 := e.time];
        if choice[0] < 0 {
          OldestNew(t, i, notMe, 2, choice[2], time[2]);
        }
      } else {
        if e.time < time[3] {
          choice', time' := choice[3 := e.frame], time[3 := e.time];
        }
        if choice[0] < 0 {
          OldestSame(t, i, notMe, 2, choice[2], time[2]);
          if choice[1] < 0 && choice[2] < 0 {
            if e.time < time[3] {
              OldestNew(t, i, notMe, 3, choice[3], time[3]);
            } else {
              OldestSame(t, i, notMe, 3, choice[3], time[3]);
            }
          }
        }
      }
    }
  }

  lemma SkipEntry(t: seq<Entry>, i: nat, notMe: int, choice: seq<int>, time: seq<nat>)
    requires i < |t| && !Candidate(t, i, notMe) && Slots(t, i, notMe, choice, time)
    ensures Slots(t, i + 1, notMe, choice, time)
  {
    OldestSame(t, i, notMe, 0, choice[0], time[0]);
    OldestSame(t, i, notMe, 1, choice[1], time[1]);
    if choice[0] < 0 {
      OldestSame(t, i, notMe, 2, choice[2], time[2]);
      if choice[1] < 0 && choice[2] < 0 {
        OldestSame(t, i, notMe, 3, choice[3], time[3]);
      }
    }
  }

  lemma LowestClass(t: seq<Entry>, notMe: int, choice: seq<int>, time: seq<nat>, c: nat, best: int)
    requires Slots(t, |t|, notMe, choice, time) && c < 4
    requires forall d :: 0 <= d < c ==> choice[d] < 0
    requires IsOldest(t, |t|, notMe, c, best)
    ensures forall i :: Candidate(t, i, notMe) && t[i].time < NEVER ==>
      c < Class(t[i]) || (c == Class(t[i]) && t[best].time <= t[i].time)
  {
    forall i | Candidate(t, i, notMe) && t[i].time < NEVER
      ensures c < Class(t[i]) || (c == Class(t[i]) && t[best].time <= t[i].time)
    {
      assert InClass(t, i, notMe, Class(t[i]));
      assert Class(t[i]) < c ==> choice[Class(t[i])] < 0 && NoneIn(t, |t|, notMe, Class(t[i]));
    }
  }

  lemma SlotOldest(t: seq<Entry>, notMe: int, choice: seq<int>, time: seq<nat>, c: nat) returns (best: int)
    requires Slots(t, |t|, notMe, choice, time) && c < 4
    requires choice[c] >= 0 && forall d :: 0 <= d < c ==> choice[d] < 0
    ensures IsOldest(t, |t|, notMe, c, best) && choice[c] == t[best].frame
  {
    assert Oldest(t, |t|, notMe, c, choice[c], time[c]);
    best :| IsOldest(t, |t|, notMe, c, best) && choice[c] == t[best].frame;
  }

  lemma SomeSlot(t: seq<Entry>, notMe: int, choice: seq<int>, time: seq<nat>, i: int)
    requires Slots(t, |t|, notMe, choice, time)
    requires Candidate(t, i, notMe) && t[i].time < NEVER
    ensures exists d :: 0 <= d < 4 && choice[d] >= 0
  {
    assert InClass(t, i, notMe, Class(t[i]));
    if choice[0] < 0 && choice[1] < 0 && choice[2] < 0 {
      assert choice[3] >= 0;
    }
  }

  lemma ClearedNext(t: seq<Entry>, i: nat, notMe: int, t': seq<Entry>)
    requires i < |t| && t' == Cleared(t, i, notMe)
    ensures Cleared(t, i + 1, notMe) ==
      if t[i].valid && t[i].frame != notMe then t'[i := t'[i].(use := false)] else t'
  {
  }

  /** `SC_Choose_Victim`: the oldest page of the lowest class that is not empty; and
      every candidate loses its use bit. */
  method SecondChanceVictim(t: seq<Entry>, notMe: int) returns (victim: int, t': seq<Entry>, ghost best: int)
    requires forall i :: 0 <= i < |t| ==> t[i].time <= NEVER
    ensures t' == Cleared(t, |t|, notMe)
    ensures victim >= 0 <==> exists i :: Candidate(t, i, notMe) && t[i].time < NEVER
    ensures victim >= 0 ==> Candidate(t, best, notMe) && victim == t[best].frame
    ensures victim >= 0 ==> forall i :: Candidate(t, i, notMe) && t[i].time < NEVER ==>
      Class(t[best]) < Class(t[i]) || (Class(t[best]) == Class(t[i]) && t[best].time <= t[i].time)
  {
    hide Slots, Oldest, Cleared, Class, NoneIn, IsOldest;
    var choice, time := [-1, -1, -1, -1], [NEVER, NEVER, NEVER, NEVER];
    StartSlots(t, notMe, choice, time);
    t' := t;
    var i := 0;
    while i < |t|
      invariant 0 <= i <= |t|
      invariant t' == Cleared(t, i, notMe)
      invariant Slots(t, i, notMe, choice, time) && |choice| == 4
    {
      ClearedNext(t, i, notMe, t');
      if t[i].valid && t[i].frame != notMe {
        choice, time := FileEntry(t, i, notMe, choice, time);
        t' := t'[i := t'[i].(use := false)];
      } else {
        SkipEntry(t, i, notMe, choice, time);
      }
      i := i + 1;
    }
    victim, best := LowestSlot(t, notMe, choice, time);
  }

  lemma StartSlots(t: seq<Entry>, notMe: int, choice: seq<int>, time: seq<nat>)
    requires choice == [-1, -1, -1, -1] && time == [NEVER, NEVER, NEVER, NEVER]
    ensures Slots(t, 0, notMe, choice, time) && Cleared(t, 0, notMe) == t
  {
  }

  /** The first slot that the scan has filled. */
  method LowestSlot(t: seq<Entry>, notMe: int, choice: seq<int>, ghost time: seq<nat>)
    returns (victim: int, ghost best: int)
    requires Slots(t, |t|, notMe, choice, time) && |choice| == 4
    ensures victim >= 0 <==> exists i :: Candidate(t, i, notMe) && t[i].time < NEVER
    ensures victim >= 0 ==> Candidate(t, best, notMe) && victim == t[best].frame
    ensures victim >= 0 ==> forall i :: Candidate(t, i, notMe) && t[i].time < NEVER ==>
      Class(t[best]) < Class(t[i]) || (Class(t[best]) == Class(t[i]) && t[best].time <= t[i].time)
  {
    hide Slots, Oldest, Class, NoneIn;
    victim, best := -1, -1;
    var c := 0;
    while c < 4
      invariant 0 <= c <= 4
      invariant victim == -1
      invariant forall d :: 0 <= d < c ==> choice[d] < 0
    {
      if choice[c] >= 0 {
        victim := choice[c];
        best := SlotOldest(t, notMe, choice, time, c);
        LowestClass(t, notMe, choice, time, c, best);
        return;
      }
      c := c + 1;
    }
    forall i | Candidate(t, i, notMe) && t[i].time < NEVER ensures false {
      SomeSlot(t, notMe, choice, time, i);
    }
  }

  // ---------------------------------------------------------------- what a policy returns

  ghost predicate FirstOnProbe(frames: seq<Frame>, start: nat, notMe: int, v: nat) {
    exists k: nat :: 1 <= k <= NUM_PHYS_PAGES && v == Probe(start, k) && Eligible(frames, v, notMe) &&
      forall j: nat :: 1 <= j < k ==> !Eligible(frames, Probe(start, j), notMe)
  }

  /** The page loaded first, the lower one if two were loaded at the same time. */
  ghost predicate FifoChoice(t: seq<Entry>, notMe: int, v: nat) {
    exists b :: Candidate(t, b, notMe) && v == t[b].frame &&
      forall i :: Candidate(t, i, notMe) ==>
        t[b].time < t[i].time || (t[b].time == t[i].time && b <= i)
  }

  /** The page with the least aging byte, then the one loaded first, then the lower one. */
  ghost predicate LruChoice(t: seq<Entry>, notMe: int, v: nat) {
    exists b :: Candidate(t, b, notMe) && v == t[b].frame && forall i :: Candidate(t, i, notMe) ==> LruBefore(t, b, i)
  }

  predicate LruBefore(t: seq<Entry>, b: int, i: int)
    requires 0 <= b < |t| && 0 <= i < |t|
  {
    || t[b].history < t[i].history
    || (t[b].history == t[i].history && (t[b].time < t[i].time || (t[b].time == t[i].time && b <= i)))
  }

  /** The oldest page of the lowest class. */
  ghost predicate ScChoice(t: seq<Entry>, notMe: int, v: nat) {
    exists b :: Candidate(t, b, notMe) && v == t[b].frame &&
      forall i :: Candidate(t, i, notMe) ==>
        Class(t[b]) < Class(t[i]) || (Class(t[b]) == Class(t[i]) && t[b].time <= t[i].time)
  }
}
