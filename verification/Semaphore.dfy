// Counting semaphores: `KernelSemaphore`.
//
// Interrupts are off inside P and V, so what other threads can see is atomic: one pass
// of the loop in P, ending in a decrement or in going to sleep; and the whole of V.

module Semaphores {

  type Tid = nat

  /** `value` and the queue of the threads that are asleep on it. */
  datatype Sem = Sem(value: nat, queue: seq<Tid>)

  /** One pass of the loop in P by `t`: whether P is done, and the semaphore after it. */
  function Attempt(s: Sem, t: Tid): (bool, Sem) {
    if s.value == 0 then (false, s.(queue := s.queue + [t]))
    else (true, s.(value := s.value - 1))
  }

  /** V, and the thread that it makes ready. */
  function Signal(s: Sem): (Sem, set<Tid>) {
    if s.queue == [] then (s.(value := s.value + 1), {})
    else (Sem(s.value + 1, s.queue[1..]), {s.queue[0]})
  }

  class KernelSemaphore {
    var value: nat
    var queue: seq<Tid>

    ghost function S(): Sem
      reads this
    {
      Sem(value, queue)
    }

    constructor (initial: nat)
      ensures S() == Sem(initial, [])
    {
      value, queue := initial, [];
    }

    /** A pass of the loop in P. When it is not done the caller is asleep, and makes the
        next pass after a V has woken it. */
    method TryP(t: Tid) returns (done: bool)
      modifies this
      ensures (done, S()) == Attempt(old(S()), t)
      ensures done <==> old(value) > 0
      ensures value == old(value) - (if done then 1 else 0)
      ensures queue == old(queue) + (if done then [] else [t])
    {
      if value == 0 {
        queue := queue + [t];
        return false;
      }
      value := value - 1;
      done := true;
    }

    method V() returns (woken: set<Tid>)
      modifies this
      ensures (S(), woken) == Signal(old(S()))
      ensures value == old(value) + 1
      ensures old(queue) == [] ==> woken == {} && queue == []
      ensures old(queue) != [] ==> woken == {old(queue)[0]} && queue == old(queue)[1..]
    {
      woken := {};
      if queue != [] {
        woken, queue := {queue[0]}, queue[1..];
      }
      value := value + 1;
    }
  }

}

/** Any number of threads using one semaphore. */
module SemaphoreRuns {
  import opened Sequences
  import opened Semaphores

  /** A semaphore among its users. `awake` are the threads that a V has made ready and
      that have not tested the value since; `ps` and `vs` count completed operations. */
  datatype World = World(sem: Sem, awake: set<Tid>, initial: nat, ps: nat, vs: nat)

  datatype Event = Enter(t: Tid) | Retest(t: Tid) | Post

  /** A thread enters P only if it is not in P already; a woken one tests again whenever
      the scheduler runs it, before or after any number of others. */
  predicate Enabled(w: World, e: Event) {
    match e
    case Enter(t) => t !in w.sem.queue && t !in w.awake
    case Retest(t) => t in w.awake
    case Post => true
  }

  function Pass(w: World, t: Tid): World {
    var (done, sem) := Attempt(w.sem, t);
    w.(sem := sem, awake := w.awake - {t}, ps := if done then w.ps + 1 else w.ps)
  }

  function Next(w: World, e: Event): World
    requires Enabled(w, e)
  {
    match e
    case Enter(t) => Pass(w, t)
    case Retest(t) => Pass(w, t)
    case Post =>
      var (sem, woken) := Signal(w.sem);
      w.(sem := sem, awake := w.awake + woken, vs := w.vs + 1)
  }

  /** The value is the balance of the operations; nobody is asleep and awake, or asleep
      twice; and while anyone is asleep, each unit of the value has a thread on its way
      to it. */
  ghost predicate Inv(w: World) {
    && w.sem.value == w.initial + w.vs - w.ps
    && Distinct(w.sem.queue)
    && (forall t :: t in w.sem.queue ==> t !in w.awake)
    && (w.sem.queue != [] ==> w.sem.value <= |w.awake|)
  }

  lemma PassKeeps(w: World, t: Tid)
    requires Inv(w) && t !in w.sem.queue
    ensures Inv(Pass(w, t))
  {
    var w' := Pass(w, t);
    if t in w.awake {
      assert |w'.awake| == |w.awake| - 1;
    } else {
      assert w'.awake == w.awake;
    }
  }

  lemma PostKeeps(w: World)
    requires Inv(w)
    ensures Inv(Next(w, Post))
  {
    var w' := Next(w, Post);
    if w.sem.queue != [] {
      var t := w.sem.queue[0];
      assert w'.awake == w.awake + {t} && |w'.awake| == |w.awake| + 1;
    }
  }

  /** The states of a run. */
  ghost predicate Runs(ws: seq<World>, es: seq<Event>) {
    && |ws| == |es| + 1
    && (forall i :: 0 <= i < |es| ==> Enabled(ws[i], es[i]) && ws[i + 1] == Next(ws[i], es[i]))
  }

  ghost predicate Start(w: World) {
    w == World(Sem(w.initial, []), {}, w.initial, 0, 0)
  }

  /** Safety in every state of every run, whatever the scheduler does. */
  lemma {:induction false} AlwaysBalanced(ws: seq<World>, es: seq<Event>, n: nat)
    requires Runs(ws, es) && Start(ws[0]) && n <= |es|
    ensures Inv(ws[n]) && ws[n].initial == ws[0].initial
  {
    if n > 0 {
      AlwaysBalanced(ws, es, n - 1);
      var w, e := ws[n - 1], es[n - 1];
      match e {
        case Enter(t) => PassKeeps(w, t);
        case Retest(t) => PassKeeps(w, t);
        case Post => PostKeeps(w);
      }
    }
  }

  /** No wakeup is lost: in no state of a run can every user of a positive semaphore be
      asleep. */
  lemma NoLostWakeup(ws: seq<World>, es: seq<Event>, n: nat)
    requires Runs(ws, es) && Start(ws[0]) && n <= |es|
    requires ws[n].sem.queue != [] && ws[n].sem.value > 0
    ensures exists t :: t in ws[n].awake && Attempt(ws[n].sem, t).0
  {
    AlwaysBalanced(ws, es, n);
    var awake := ws[n].awake;
    assert awake != {};
    var t :| t in awake;
    assert Attempt(ws[n].sem, t).0;
  }

  // ---------------------------------------------------------------- who is woken

  /** Step i is a pass of the loop in P by t that finds no unit. */
  ghost predicate FallsAsleep(ws: seq<World>, es: seq<Event>, i: nat, t: Tid) {
    && i < |es| < |ws|
    && (es[i] == Enter(t) || es[i] == Retest(t)) && ws[i].sem.value == 0
  }

  /** Step i is a Post that makes t ready. */
  ghost predicate Wakes(ws: seq<World>, es: seq<Event>, i: nat, t: Tid) {
    i < |es| < |ws| && es[i] == Post && t !in ws[i].awake && t in ws[i + 1].awake
  }

  /** How many Posts there are from step i on, before step j. */
  function Posts(es: seq<Event>, i: nat, j: nat): nat
    requires i <= j <= |es|
    decreases j
  {
    if i == j then 0 else Posts(es, i, j - 1) + if es[j - 1].Post? then 1 else 0
  }

  /** A sleeper moves up by one place with every Post. */
  lemma {:induction false} MovesUp(ws: seq<World>, es: seq<Event>, i: nat, n: nat, t: Tid, k: nat)
    requires Runs(ws, es) && i <= n <= |es| && Posts(es, i, n) <= k
    requires k < |ws[i].sem.queue| && ws[i].sem.queue[k] == t
    ensures k - Posts(es, i, n) < |ws[n].sem.queue| && ws[n].sem.queue[k - Posts(es, i, n)] == t
    decreases n
  {
    if i < n {
      MovesUp(ws, es, i, n - 1, t, k);
      assert ws[n] == Next(ws[n - 1], es[n - 1]);
    }
  }

  /** A sleeper with k others in front is woken by the Post behind k others. */
  lemma WokenInTurn(ws: seq<World>, es: seq<Event>, i: nat, n: nat, t: Tid, k: nat)
    requires Runs(ws, es) && Start(ws[0]) && i <= n < |es|
    requires k < |ws[i].sem.queue| && ws[i].sem.queue[k] == t
    requires es[n] == Post && Posts(es, i, n) == k
    ensures Wakes(ws, es, n, t)
  {
    MovesUp(ws, es, i, n, t, k);
    AlwaysBalanced(ws, es, n);
    assert ws[n + 1] == Next(ws[n], es[n]) && t in ws[n].sem.queue;
  }

  lemma {:induction false} KthPost(es: seq<Event>, i: nat, n: nat, k: nat) returns (m: nat)
    requires i <= n <= |es| && Posts(es, i, n) > k
    ensures i <= m < n && es[m] == Post && Posts(es, i, m) == k
    decreases n
  {
    if es[n - 1].Post? && Posts(es, i, n - 1) == k {
      m := n - 1;
    } else {
      m := KthPost(es, i, n - 1, k);
    }
  }

  /** One who is woken was at the head of the queue. */
  lemma WokenIsFirst(ws: seq<World>, es: seq<Event>, n: nat, u: Tid, y: nat)
    requires Runs(ws, es) && Start(ws[0]) && Wakes(ws, es, n, u)
    requires y < |ws[n].sem.queue| && ws[n].sem.queue[y] == u
    ensures y == 0
  {
    AlwaysBalanced(ws, es, n);
    assert ws[n + 1] == Next(ws[n], es[n]);
  }

  lemma {:induction false} PostsAdd(es: seq<Event>, i: nat, j: nat, n: nat)
    requires i <= j <= n <= |es|
    ensures Posts(es, i, n) == Posts(es, i, j) + Posts(es, j, n)
    decreases n
  {
    if j < n {
      PostsAdd(es, i, j, n - 1);
    }
  }

  /** Sleepers are woken in the order in which they fell asleep: before a Post wakes u,
      one has woken t, who fell asleep before u did. */
  lemma FirstComeFirstWoken(ws: seq<World>, es: seq<Event>, i: nat, j: nat, n: nat, t: Tid, u: Tid) returns (m: nat)
    requires Runs(ws, es) && Start(ws[0]) && i < j < n < |es|
    requires FallsAsleep(ws, es, i, t) && FallsAsleep(ws, es, j, u)
    requires Wakes(ws, es, n, u) && forall k :: j < k < n ==> !Wakes(ws, es, k, u)
    ensures i < m < n && Wakes(ws, es, m, t)
  {
    assert ws[i + 1] == Next(ws[i], es[i]) && ws[j + 1] == Next(ws[j], es[j]);
    var x, y := |ws[i].sem.queue|, |ws[j].sem.queue|;
    assert ws[i + 1].sem.queue[x] == t && ws[j + 1].sem.queue[y] == u;
    PostsAdd(es, i + 1, j, n);
    PostsAdd(es, j, j + 1, n);
    if Posts(es, j + 1, n) > y {
      var early := KthPost(es, j + 1, n, y);
      WokenInTurn(ws, es, j + 1, early, u, y);
      assert false;
    }
    MovesUp(ws, es, j + 1, n, u, y);
    WokenIsFirst(ws, es, n, u, y - Posts(es, j + 1, n));
    if Posts(es, i + 1, j) <= x {
      MovesUp(ws, es, i + 1, j, t, x);
    }
    m := KthPost(es, i + 1, n, x);
    WokenInTurn(ws, es, i + 1, m, t, x);
  }

  // ---------------------------------------------------------------- overtaking

  /** The step is a pass of the loop in P that takes a unit. */
  predicate Takes(w: World, e: Event) {
    match e
    case Enter(t) => Attempt(w.sem, t).0
    case Retest(t) => Attempt(w.sem, t).0
    case Post => false
  }

  /** How many units are taken from step i on, before step j. */
  function Taken(ws: seq<World>, es: seq<Event>, i: nat, j: nat): nat
    requires i <= j <= |es| <= |ws|
    decreases j
  {
    if i == j then 0 else Taken(ws, es, i, j - 1) + if Takes(ws[j - 1], es[j - 1]) then 1 else 0
  }

  lemma {:induction false} BalanceBetween(ws: seq<World>, es: seq<Event>, i: nat, j: nat)
    requires Runs(ws, es) && i <= j <= |es|
    ensures ws[j].sem.value == ws[i].sem.value + Posts(es, i, j) - Taken(ws, es, i, j)
    decreases j
  {
    if i < j {
      BalanceBetween(ws, es, i, j - 1);
    }
  }

  /** Step i is the Post that wakes t, and step j is where t tests the value again. */
  ghost predicate WokenToRetest(ws: seq<World>, es: seq<Event>, i: nat, j: nat, t: Tid) {
    && Runs(ws, es) && i < j < |es|
    && Wakes(ws, es, i, t) && es[j] == Retest(t)
    && (forall k :: i < k < j ==> es[k] != Retest(t))
  }

  /** A woken thread gets a unit when it tests again if and only if fewer units have been
      taken meanwhile than there were behind the Post that woke it, and have come since.
      In particular it gets one if nobody took any. When it gets none it is asleep again,
      behind every other sleeper. */
  lemma WokenGetsUnit(ws: seq<World>, es: seq<Event>, i: nat, j: nat, t: Tid)
    requires WokenToRetest(ws, es, i, j, t)
    ensures Takes(ws[j], es[j]) <==>
      Taken(ws, es, i + 1, j) < ws[i + 1].sem.value + Posts(es, i + 1, j)
    ensures Taken(ws, es, i + 1, j) == 0 ==> Takes(ws[j], es[j])
    ensures !Takes(ws[j], es[j]) ==> ws[j + 1].sem == Sem(0, ws[j].sem.queue + [t])
  {
    BalanceBetween(ws, es, i + 1, j);
    assert ws[i + 1] == Next(ws[i], es[i]);
    assert ws[j + 1] == Next(ws[j], es[j]);
  }

  /** Another thread can overtake one that has been woken: t waits, is woken, and finds the
      unit gone to u, which came later. */
  lemma Overtaken(t: Tid, u: Tid) returns (ws: seq<World>, es: seq<Event>)
    requires t != u
    ensures es == [Enter(t), Post, Enter(u), Retest(t)] && Runs(ws, es)
    ensures Start(ws[0]) && ws[0].initial == 0
    ensures WokenToRetest(ws, es, 1, 3, t) && Takes(ws[2], es[2]) && !Takes(ws[3], es[3])
    ensures ws[4].sem == Sem(0, [t])
  {
    es := [Enter(t), Post, Enter(u), Retest(t)];
    var w0 := World(Sem(0, []), {}, 0, 0, 0);
    var w1 := World(Sem(0, [t]), {}, 0, 0, 0);
    var w2 := World(Sem(1, []), {t}, 0, 0, 1);
    var w3 := World(Sem(0, []), {t}, 0, 1, 1);
    var w4 := World(Sem(0, [t]), {}, 0, 1, 1);
    ws := [w0, w1, w2, w3, w4];
    assert Next(w0, Enter(t)) == w1;
    assert Next(w1, Post) == w2;
    assert Next(w2, Enter(u)) == w3;
    assert Next(w3, Retest(t)) == w4;
  }
}
