// Writing to the console: `ConsoleWrite` by any number of threads, one character at a
// time, with an interrupt for each.

module Consoles {
  import opened Sequences
  import opened Options
  import opened Semaphores

  /** Where a thread is. `k` counts the characters that the loop has finished. */
  datatype Phase =
    | Idle
    | Asks(buf: string)             // in consoleWrite->P(), ready to test the value
    | Sleeps(buf: string)           // asleep in consoleWrite->P()
    | Loops(buf: string, k: nat)    // at the test of the loop
    | Awaits(buf: string, k: nat)   // in consoleWriteDone->P(), ready to test the value
    | Dozes(buf: string, k: nat)    // asleep in consoleWriteDone->P()

  /** `mutex` is consoleWrite and `done` is consoleWriteDone; `pending` is the character
      whose interrupt is due. `log` and `owner` record the calls that have returned, in
      that order, and the thread that is between the P and the V of consoleWrite. */
  datatype Con = Con(
    mutex: Sem, done: Sem, putBusy: bool, pending: Option<char>, out: string,
    threads: map<Tid, Phase>, log: seq<string>, owner: Option<Tid>)

  datatype Event =
    | Call(t: Tid, buf: string)
    | PassMutex(t: Tid)
    | PutChar(t: Tid)
    | PassDone(t: Tid)
    | Return(t: Tid)
    | FinishWrite

  predicate Enabled(c: Con, e: Event) {
    match e
    case Call(t, _) => t in c.threads && c.threads[t].Idle?
    case PassMutex(t) => t in c.threads && c.threads[t].Asks?
    case PutChar(t) => t in c.threads && c.threads[t].Loops? && c.threads[t].k < |c.threads[t].buf|
    case PassDone(t) => t in c.threads && c.threads[t].Awaits?
    case Return(t) => t in c.threads && c.threads[t].Loops? && c.threads[t].k >= |c.threads[t].buf|
    case FinishWrite => c.pending.Some?
  }

  /** What being made ready does to a thread that was asleep. */
  function Woken(ph: Phase): Phase {
    match ph
    case Sleeps(buf) => Asks(buf)
    case Dozes(buf, k) => Awaits(buf, k)
    case _ => ph
  }

  function WakeAll(threads: map<Tid, Phase>, woken: set<Tid>): map<Tid, Phase> {
    map t | t in threads :: if t in woken then Woken(threads[t]) else threads[t]
  }

  function Next(c: Con, e: Event): Con
    requires Enabled(c, e)
  {
    match e
    case Call(t, buf) => c.(threads := c.threads[t := Asks(buf)])
    case PassMutex(t) =>
      var (got, sem) := Attempt(c.mutex, t);
      var buf := c.threads[t].buf;
      c.(mutex := sem, threads := c.threads[t := if got then Loops(buf, 0) else Sleeps(buf)],
         owner := if got then Some(t) else c.owner)
    case PutChar(t) =>
      var Loops(buf, k) := c.threads[t];
      c.(putBusy := true, pending := Some(buf[k]), threads := c.threads[t := Awaits(buf, k)])
    case PassDone(t) =>
      var (got, sem) := Attempt(c.done, t);
      var Awaits(buf, k) := c.threads[t];
      c.(done := sem, threads := c.threads[t := if got then Loops(buf, k + 1) else Dozes(buf, k)])
    case Return(t) =>
      var (sem, woken) := Signal(c.mutex);
      c.(mutex := sem, threads := WakeAll(c.threads[t := Idle], woken),
         log := c.log + [c.threads[t].buf], owner := None)
    case FinishWrite =>
      var (sem, woken) := Signal(c.done);
      c.(out := c.out + [c.pending.value], putBusy := false, pending := None,
         done := sem, threads := WakeAll(c.threads, woken))
  }

  function Flat(bufs: seq<string>): string {
    if bufs == [] then "" else Flat(bufs[..|bufs| - 1]) + bufs[|bufs| - 1]
  }

  // ---------------------------------------------------------------- the invariant

  predicate Inside(ph: Phase) {
    ph.Loops? || ph.Awaits? || ph.Dozes?
  }

  /** The waiting threads are the sleeping ones, each once; only the owner is inside. */
  ghost predicate Places(c: Con) {
    && Distinct(c.mutex.queue)
    && (forall t :: t in c.mutex.queue <==> t in c.threads && c.threads[t].Sleeps?)
    && (forall t :: t in c.threads ==> (Inside(c.threads[t]) <==> c.owner == Some(t)))
  }

  /** Somebody is on the way to a free mutex that others sleep on. */
  ghost predicate Claimed(c: Con) {
    c.mutex.value > 0 && c.mutex.queue != [] ==> exists t :: t in c.threads && c.threads[t].Asks?
  }

  /** How many characters of the owner's buffer have been printed. */
  function Printed(ph: Phase, done: Sem): nat {
    match ph
    case Loops(_, k) => k
    case Awaits(_, k) => k + done.value
    case Dozes(_, k) => k + done.value
    case _ => 0
  }

  /** The device is busy with the owner's current character, or idle; the semaphore
      consoleWriteDone counts the interrupt that the owner has not seen yet. */
  ghost predicate Device(c: Con) {
    && c.putBusy == c.pending.Some?
    && match c.owner
       case None =>
         c.mutex.value == 1 && c.done == Sem(0, []) && !c.putBusy && c.out == Flat(c.log)
       case Some(t) =>
         && t in c.threads && Inside(c.threads[t]) && c.mutex.value == 0
         && var ph := c.threads[t];
         && ph.k <= |ph.buf|
         && (ph.Loops? ==> c.done.value == 0 && !c.putBusy)
         && (!ph.Loops? ==> ph.k < |ph.buf| && (c.done.value == if c.putBusy then 0 else 1))
         && (ph.Dozes? ==> c.putBusy)
         && c.done.queue == (if ph.Dozes? then [t] else [])
         && (c.putBusy ==> c.pending == Some(ph.buf[ph.k]))
         && c.out == Flat(c.log) + ph.buf[..Printed(ph, c.done)]
  }

  ghost predicate Inv(c: Con) {
    Places(c) && Claimed(c) && Device(c)
  }

  lemma PassMutexKeeps(c: Con, t: Tid)
    requires Inv(c) && Enabled(c, PassMutex(t))
    ensures Inv(Next(c, PassMutex(t)))
  {
    hide Flat;
    assert c.owner != Some(t);
  }

  lemma PutCharKeeps(c: Con, t: Tid)
    requires Inv(c) && Enabled(c, PutChar(t))
    ensures Inv(Next(c, PutChar(t)))
  {
    hide Flat;
    assert c.owner == Some(t);
  }

  lemma PassDoneKeeps(c: Con, t: Tid)
    requires Inv(c) && Enabled(c, PassDone(t))
    ensures Inv(Next(c, PassDone(t)))
  {
    hide Flat;
    assert c.owner == Some(t);
  }

  lemma ReturnKeeps(c: Con, t: Tid)
    requires Inv(c) && Enabled(c, Return(t))
    ensures Inv(Next(c, Return(t)))
  {
    assert c.owner == Some(t);
    var buf := c.threads[t].buf;
    assert (c.log + [buf])[..|c.log|] == c.log;
    assert Flat(c.log + [buf]) == Flat(c.log) + buf;
    assert buf[..|buf|] == buf;
    hide Flat;
    var c' := Next(c, Return(t));
    if c.mutex.queue != [] {
      var u := c.mutex.queue[0];
      assert c'.threads[u].Asks?;
    }
  }

  lemma FinishWriteKeeps(c: Con)
    requires Inv(c) && Enabled(c, FinishWrite)
    ensures Inv(Next(c, FinishWrite))
  {
    hide Flat;
    var t := c.owner.value;
    var ph := c.threads[t];
    assert ph.buf[..ph.k] + [ph.buf[ph.k]] == ph.buf[..ph.k + 1];
  }

  lemma StepKeeps(c: Con, e: Event)
    requires Inv(c) && Enabled(c, e)
    ensures Inv(Next(c, e))
  {
    match e {
      case Call(t, buf) => assert c.owner != Some(t);
      case PassMutex(t) => PassMutexKeeps(c, t);
      case PutChar(t) => PutCharKeeps(c, t);
      case PassDone(t) => PassDoneKeeps(c, t);
      case Return(t) => ReturnKeeps(c, t);
      case FinishWrite => FinishWriteKeeps(c);
    }
  }

  // ---------------------------------------------------------------- every run

  /** consoleWrite starts at 1 and consoleWriteDone at 0. */
  ghost predicate Start(c: Con) {
    && c == Con(Sem(1, []), Sem(0, []), false, None, "", c.threads, [], None)
    && (forall t :: t in c.threads ==> c.threads[t].Idle?)
  }

  ghost predicate Runs(cs: seq<Con>, es: seq<Event>) {
    && |cs| == |es| + 1
    && (forall i :: 0 <= i < |es| ==> Enabled(cs[i], es[i]) && cs[i + 1] == Next(cs[i], es[i]))
  }

  lemma {:induction false} AlwaysInv(cs: seq<Con>, es: seq<Event>, n: nat)
    requires Runs(cs, es) && Start(cs[0]) && n <= |es|
    ensures Inv(cs[n])
  {
    hide Inv;
    if n > 0 {
      AlwaysInv(cs, es, n - 1);
      StepKeeps(cs[n - 1], es[n - 1]);
    } else {
      StartInv(cs[0]);
    }
  }

  lemma StartInv(c: Con)
    requires Start(c)
    ensures Inv(c)
  {
  }

  /** The buffer that t has passed to its last call within the first n steps. */
  function Asked(es: seq<Event>, n: nat, t: Tid): string
    requires n <= |es|
  {
    if n == 0 then ""
    else if es[n - 1].Call? && es[n - 1].t == t then es[n - 1].buf
    else Asked(es, n - 1, t)
  }

  lemma {:induction false} BufIsAsked(cs: seq<Con>, es: seq<Event>, n: nat, t: Tid)
    requires Runs(cs, es) && Start(cs[0]) && n <= |es| && t in cs[n].threads && !cs[n].threads[t].Idle?
    ensures cs[n].threads[t].buf == Asked(es, n, t)
  {
    hide Enabled, Next;
    if n > 0 {
      StepBuf(cs[n - 1], es[n - 1], t);
      if !(es[n - 1].Call? && es[n - 1].t == t) {
        BufIsAsked(cs, es, n - 1, t);
      }
    }
  }

  /** Only a call changes the buffer that a thread works on. */
  lemma StepBuf(c: Con, e: Event, t: Tid)
    requires Enabled(c, e) && t in Next(c, e).threads && !Next(c, e).threads[t].Idle?
    ensures t in c.threads
    ensures if e.Call? && e.t == t then Next(c, e).threads[t].buf == e.buf
      else !c.threads[t].Idle? && Next(c, e).threads[t].buf == c.threads[t].buf
  {
    hide Attempt, Signal;
  }

  /** What the calls that have returned within the first n steps were asked to write, in the
      order of their returns. */
  function Returned(es: seq<Event>, n: nat): seq<string>
    requires n <= |es|
  {
    if n == 0 then []
    else Returned(es, n - 1) + if es[n - 1].Return? then [Asked(es, n - 1, es[n - 1].t)] else []
  }

  lemma ReturnLogs(c: Con, e: Event)
    requires Enabled(c, e)
    ensures Next(c, e).log == c.log + if e.Return? then [c.threads[e.t].buf] else []
    ensures e.Return? ==> e.t in c.threads && !c.threads[e.t].Idle?
  {
  }

  lemma {:induction false} LogIsReturned(cs: seq<Con>, es: seq<Event>, n: nat)
    requires Runs(cs, es) && Start(cs[0]) && n <= |es|
    ensures cs[n].log == Returned(es, n)
  {
    hide Enabled, Next, Asked;
    if n > 0 {
      var c, e := cs[n - 1], es[n - 1];
      ReturnLogs(c, e);
      LogIsReturned(cs, es, n - 1);
      if e.Return? {
        BufIsAsked(cs, es, n - 1, e.t);
      }
    }
  }

  ghost predicate AtMostOneInside(c: Con) {
    forall t, u :: t in c.threads && u in c.threads && Inside(c.threads[t]) && Inside(c.threads[u]) ==> t == u
  }

  /** Writes are atomic: in every run, what has been printed is what the calls that have
      returned were asked to write, whole and in order, and then a prefix of what at most
      one call in progress was asked to write. */
  lemma WritesAreAtomic(cs: seq<Con>, es: seq<Event>)
    requires Runs(cs, es) && Start(cs[0])
    ensures var c, n := cs[|es|], |es|;
      exists rest: string ::
        && c.out == Flat(Returned(es, n)) + rest
        && (rest == "" || exists t :: t in c.threads && Inside(c.threads[t]) && rest <= Asked(es, n, t))
    ensures AtMostOneInside(cs[|es|])
  {
    hide Inv, Flat, Returned, Asked, Inside, Start, Enabled, Next;
    var n := |es|;
    AlwaysInv(cs, es, n);
    LogIsReturned(cs, es, n);
    var c := cs[n];
    OneInside(c);
    var rest := OutIs(c);
    if c.owner.Some? {
      BufIsAsked(cs, es, n, c.owner.value);
    }
  }

  lemma OneInside(c: Con)
    requires Inv(c)
    ensures AtMostOneInside(c)
  {
    hide Device, Claimed;
  }

  /** What has been printed, seen from one state. */
  lemma OutIs(c: Con) returns (rest: string)
    requires Inv(c)
    ensures c.out == Flat(c.log) + rest
    ensures c.owner.None? ==> rest == ""
    ensures c.owner.Some? ==>
      var t := c.owner.value;
      t in c.threads && Inside(c.threads[t]) && !c.threads[t].Idle? && rest <= c.threads[t].buf
  {
    hide Flat, Places, Claimed;
    if c.owner.None? {
      rest := "";
    } else {
      var ph := c.threads[c.owner.value];
      rest := ph.buf[..Printed(ph, c.done)];
    }
  }

  /** The assertion in `PutChar` never fails. */
  lemma NeverBusy(cs: seq<Con>, es: seq<Event>, n: nat, t: Tid)
    requires Runs(cs, es) && Start(cs[0]) && n <= |es| && Enabled(cs[n], PutChar(t))
    ensures !cs[n].putBusy && cs[n].pending.None?
  {
    AlwaysInv(cs, es, n);
    assert cs[n].owner == Some(t);
  }

  /** No deadlock: while any call is in progress, the interrupt is due or some thread in
      a call is ready to take a step. */
  lemma SomeoneCanStep(cs: seq<Con>, es: seq<Event>, n: nat, t: Tid)
    requires Runs(cs, es) && Start(cs[0]) && n <= |es|
    requires t in cs[n].threads && !cs[n].threads[t].Idle?
    ensures exists e: Event :: Enabled(cs[n], e) && !e.Call?
  {
    AlwaysInv(cs, es, n);
    var c := cs[n];
    match c.owner {
      case Some(u) =>
        match c.threads[u] {
          case Loops(buf, k) => assert Enabled(c, if k < |buf| then PutChar(u) else Return(u));
          case Awaits(buf, k) => assert Enabled(c, PassDone(u));
          case Dozes(buf, k) => assert Enabled(c, FinishWrite);
        }
      case None =>
        if c.threads[t].Asks? {
          assert Enabled(c, PassMutex(t));
        } else {
          assert t in c.mutex.queue;
          var u :| u in c.threads && c.threads[u].Asks?;
          assert Enabled(c, PassMutex(u));
        }
    }
  }
}
