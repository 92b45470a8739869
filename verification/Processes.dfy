// Fork, Exit and Wait: processes that come and go, their parents, and who frees them.
//
// The kernel switches threads only where interrupts go from off to on, or where a
// thread goes to sleep. So the code between two such points is one atomic step here,
// and a switch to any ready thread may come between two steps.

module Processes {
  import opened Sequences
  import opened Options
  import opened Semaphores

  datatype Status = Running | Ready | Blocked | Zombie

  /** Who called System_Wait: the program, with a place for the exit value or without;
      or System_Exit, on its way to exit with this value. */
  datatype Caller = Program(wants: bool) | Exiting(value: int)

  datatype Pc =
    | User
    | Waits(caller: Caller)                               // in ChildExited->P()
    | Unqueues(caller: Caller)                            // P has returned
    | Collects(caller: Caller, child: Tid, value: int)    // has a child and its exit value
    | Exits(value: int)                               // at the loop of System_Exit
    | Posted                                          // V has returned
    | Gone                                            // in its last Sleep

  /** A Thread object: `list` is ChildList, `sem` is ChildExited, `released` is
      thread_exit_status; `started` once it has run. */
  datatype Proc = Proc(
    parent: Option<Tid>, children: nat, list: seq<Tid>, sem: Sem,
    exitVal: int, released: bool, status: Status, pc: Pc, started: bool)

  datatype Report = Report(parent: Tid, child: Tid, value: Option<int>)
  datatype Freed = ByParent(who: Tid) | ByScheduler(who: Tid)

  /** `procs` holds the Thread objects that have not been deleted; `doomed` is
      threadToBeDestroyed. The last three are history: what each process passed to
      System_Exit, what the Waits have returned, and the deletions. */
  datatype World = World(
    procs: map<Tid, Proc>, cur: Tid, doomed: Option<Tid>, nextId: Tid,
    exited: map<Tid, int>, reports: seq<Report>, freed: seq<Freed>)

  /** The first thread has no parent. */
  const ROOT: Tid := 1

  function NewProc(parent: Option<Tid>): Proc {
    Proc(parent, 0, [], Sem(0, []), 0, false, Ready, User, false)
  }

  // ---------------------------------------------------------------- steps

  datatype Event =
    | Fork
    | CallWait(wants: bool)
    | CallExit(value: int)
    | PassP
    | Unqueue
    | Dispose(junk: int)
    | ExitLoop
    | Conclude
    | Block
    | Wake(t: Tid)
    | Switch(next: Tid)

  ghost predicate Alive(w: World, t: Tid) {
    t in w.procs
  }

  ghost predicate CurIs(w: World) {
    w.cur in w.procs && w.procs[w.cur].status == Running
  }

  /** What the scheduler and the program decide. Threads may block for other reasons, and
      be woken by an interrupt, while they run the program or copy out the exit value. */
  ghost predicate Enabled(w: World, e: Event) {
    match e
    case Fork => CurIs(w) && w.procs[w.cur].pc.User?
    case CallWait(_) => CurIs(w) && w.procs[w.cur].pc.User?
    case CallExit(_) => CurIs(w) && w.procs[w.cur].pc.User?
    case PassP => CurIs(w) && w.procs[w.cur].pc.Waits?
    case Unqueue => CurIs(w) && w.procs[w.cur].pc.Unqueues?
    case Dispose(_) => CurIs(w) && w.procs[w.cur].pc.Collects?
    case ExitLoop => CurIs(w) && w.procs[w.cur].pc.Exits?
    case Conclude => CurIs(w) && w.procs[w.cur].pc.Posted?
    case Block => CurIs(w) && (w.procs[w.cur].pc.User? || w.procs[w.cur].pc.Collects?)
    case Wake(t) => t in w.procs && w.procs[t].status == Blocked && t !in w.procs[t].sem.queue
    case Switch(next) =>
      && w.cur in w.procs && next in w.procs
      && (w.procs[next].status == Ready || (CurIs(w) && next == w.cur))
  }

  /** The step touches no object that has been deleted, stops at no assertion, and does
      not forget an object that is to be deleted. */
  ghost predicate Safe(w: World, e: Event)
    requires Enabled(w, e)
  {
    match e
    case Unqueue => w.procs[w.cur].list != [] && Alive(w, w.procs[w.cur].list[0])
    case Dispose(_) =>
      && w.procs[w.cur].children >= 1
      && Alive(w, w.procs[w.cur].pc.child) && w.procs[w.cur].pc.child != w.cur
    case ExitLoop =>
      w.procs[w.cur].children == 0 ==>
        (match w.procs[w.cur].parent
         case None => w.doomed.None?
         case Some(p) => Alive(w, p) && p != w.cur)
    case Conclude => w.procs[w.cur].released ==> w.doomed.None?
    case Switch(next) =>
      w.doomed.Some? && w.procs[next].started ==> Alive(w, w.doomed.value) && w.doomed.value != next
    case _ => true
  }

  function Back(caller: Caller): Pc {
    match caller
    case Program(_) => User
    case Exiting(v) => Exits(v)
  }

  /** `Scheduler::Run`: a thread that has run before resumes behind SWITCH, and deletes
      the thread that finished. */
  ghost function Dispatch(w: World, next: Tid): World
    requires next in w.procs
  {
    var m := w.procs[next := w.procs[next].(status := Running, started := true)];
    if w.procs[next].started && w.doomed.Some? then
      w.(procs := m - {w.doomed.value}, cur := next, doomed := None, freed := w.freed + [ByScheduler(w.doomed.value)])
    else
      w.(procs := m, cur := next)
  }

  /** `Thread::Finish`. */
  ghost function Finish(w: World): World
    requires w.cur in w.procs
  {
    w.(procs := w.procs[w.cur := w.procs[w.cur].(status := Zombie, pc := Gone)], doomed := Some(w.cur))
  }

  /** Queue_Child and V on the parent's semaphore. */
  function Posting(p: Proc, child: Tid): Proc {
    var (sem, woken) := Signal(p.sem);
    p.(list := p.list + [child], sem := sem, status := if woken != {} then Ready else p.status)
  }

  /** w after t has become q. */
  ghost function With(w: World, t: Tid, q: Proc): World {
    w.(procs := w.procs[t := q])
  }

  /** `System_Fork`. */
  ghost function Forked(w: World): World
    requires CurIs(w)
  {
    var me := w.procs[w.cur];
    w.(procs := w.procs[w.cur := me.(children := me.children + 1)][w.nextId := NewProc(Some(w.cur))],
       nextId := w.nextId + 1)
  }

  /** A pass of the loop in P. */
  function Passed(me: Proc, t: Tid): Proc
    requires me.pc.Waits?
  {
    var (got, sem) := Attempt(me.sem, t);
    if got then me.(sem := sem, pc := Unqueues(me.pc.caller)) else me.(sem := sem, status := Blocked)
  }

  /** `UnQueue_Child`, and the exit value. */
  ghost function Took(w: World): World
    requires CurIs(w) && w.procs[w.cur].pc.Unqueues?
    requires w.procs[w.cur].list != [] && w.procs[w.cur].list[0] in w.procs
  {
    var me := w.procs[w.cur];
    var child := me.list[0];
    With(w, w.cur, me.(list := me.list[1..], pc := Collects(me.pc.caller, child, w.procs[child].exitVal)))
  }

  predicate Wanted(caller: Caller) {
    caller.Program? && caller.wants
  }

  /** The end of `System_Wait`: a child that is a zombie is deleted here; one that is not
      yet is told to finish by itself. */
  ghost function Disposed(w: World, junk: int): World
    requires CurIs(w) && w.procs[w.cur].pc.Collects? && w.procs[w.cur].children >= 1
    requires w.procs[w.cur].pc.child in w.procs && w.procs[w.cur].pc.child != w.cur
  {
    var me := w.procs[w.cur];
    var Collects(caller, child, value) := me.pc;
    var m := w.procs[w.cur := me.(children := me.children - 1, pc := Back(caller))];
    var reports := w.reports + [Report(w.cur, child, if Wanted(caller) then Some(value) else None)];
    if w.procs[child].status == Zombie then
      w.(procs := m - {child}, reports := reports, freed := w.freed + [ByParent(child)])
    else
      w.(procs := m[child := m[child].(released := true, exitVal := if Wanted(caller) then -value else junk)],
         reports := reports)
  }

  /** `System_Exit` behind its loop, for a process with a parent, up to the V. */
  ghost function Left(w: World, p: Tid): World
    requires CurIs(w) && w.procs[w.cur].pc.Exits? && p in w.procs && p != w.cur
  {
    var me := w.procs[w.cur];
    w.(procs := w.procs[p := Posting(w.procs[p], w.cur)]
                       [w.cur := me.(released := false, exitVal := me.pc.value, pc := Posted)],
       exited := w.exited[w.cur := me.pc.value])
  }

  /** Putting the current thread back on the ready list. */
  ghost function Preempted(w: World): World
    requires w.cur in w.procs
  {
    var me := w.procs[w.cur];
    if me.status == Running then With(w, w.cur, me.(status := Ready)) else w
  }

  /** `Thread::Yield`, or the end of a Sleep: the processor goes to `next`. */
  ghost function Switched(w: World, next: Tid): World
    requires w.cur in w.procs && next in w.procs
  {
    Dispatch(Preempted(w), next)
  }

  ghost function Next(w: World, e: Event): World
    requires Enabled(w, e) && Safe(w, e)
  {
    match e
    case Fork => Forked(w)
    case CallWait(wants) =>
      if w.procs[w.cur].children == 0 then w
      else With(w, w.cur, w.procs[w.cur].(pc := Waits(Program(wants))))
    case CallExit(v) => With(w, w.cur, w.procs[w.cur].(pc := Exits(v)))
    case PassP => With(w, w.cur, Passed(w.procs[w.cur], w.cur))
    case Unqueue => Took(w)
    case Dispose(junk) => Disposed(w, junk)
    case ExitLoop =>
      var me := w.procs[w.cur];
      if me.children > 0 then With(w, w.cur, me.(pc := Waits(Exiting(me.pc.value))))
      else if me.parent.None? then Finish(w)
      else Left(w, me.parent.value)
    case Conclude =>
      if w.procs[w.cur].released then Finish(w)
      else With(w, w.cur, w.procs[w.cur].(status := Zombie, pc := Gone))
    case Block => With(w, w.cur, w.procs[w.cur].(status := Blocked))
    case Wake(t) => With(w, t, w.procs[t].(status := Ready))
    case Switch(next) => Switched(w, next)
  }

  // ---------------------------------------------------------------- the invariant

  predicate Over(pc: Pc) {
    pc.Posted? || pc.Gone?
  }

  /** A child of p that no Wait has finished with. */
  predicate IsKid(m: map<Tid, Proc>, t: Tid, p: Tid) {
    t in m && m[t].parent == Some(p) && !m[t].released
  }

  ghost function Kids(m: map<Tid, Proc>, p: Tid): set<Tid> {
    set t | t in m && IsKid(m, t, p)
  }

  /** Every unreaped child's parent is there, and counts it. */
  ghost predicate Families(m: map<Tid, Proc>) {
    && (forall t, p :: IsKid(m, t, p) ==> p in m)
    && (forall p :: p in m ==> m[p].children == |Kids(m, p)|)
  }

  /** c has posted its exit and no Wait has taken it. */
  predicate Queued(m: map<Tid, Proc>, c: Tid, p: Tid)
    requires p in m
  {
    IsKid(m, c, p) && Over(m[c].pc) && !(m[p].pc.Collects? && m[p].pc.child == c)
  }

  /** ChildList holds those, each once. */
  ghost predicate Listed(m: map<Tid, Proc>) {
    && (forall p :: p in m ==> Distinct(m[p].list))
    && (forall p, c :: p in m ==> (c in m[p].list <==> Queued(m, c, p)))
  }

  /** A child that a Wait has taken, and not disposed of. */
  ghost predicate Holds(m: map<Tid, Proc>, p: Tid)
    requires p in m
  {
    m[p].pc.Collects? ==> IsKid(m, m[p].pc.child, p) && Over(m[m[p].pc.child].pc)
  }

  ghost predicate Lists(m: map<Tid, Proc>) {
    Listed(m) && forall p {:trigger Holds(m, p)} :: p in m ==> Holds(m, p)
  }

  predicate Asleep(p: Proc) {
    p.pc.Waits? && p.status == Blocked
  }

  /** The semaphore counts the children on the list, but for the one that a P has
      claimed; only its owner sleeps on it, and only while the list is empty. */
  predicate SemOk(t: Tid, p: Proc) {
    && p.sem.value + (if p.pc.Unqueues? then 1 else 0) == |p.list|
    && p.sem.queue == (if Asleep(p) then [t] else [])
    && (Asleep(p) ==> p.sem.value == 0)
  }

  predicate PhaseOk(p: Proc) {
    && (p.status == Zombie <==> p.pc.Gone?)
    && (Over(p.pc) ==> p.children == 0)
    && (p.pc.Waits? ==> p.children > 0)
    && (p.released ==> Over(p.pc) && p.parent.Some?)
    && (p.pc.Posted? ==> p.parent.Some?)
    && (!p.started ==> p.pc.User? && p.status == Ready && p.children == 0 && p.parent.Some?)
  }

  ghost predicate Locals(m: map<Tid, Proc>) {
    forall t :: t in m ==> SemOk(t, m[t]) && PhaseOk(m[t])
  }

  /** A process that can still be waited for has its own exit value, once it has exited. */
  ghost predicate Values(m: map<Tid, Proc>, exited: map<Tid, int>) {
    && (forall t :: t in m && Over(m[t].pc) && m[t].parent.Some? ==> t in exited)
    && (forall t :: t in m && Over(m[t].pc) && m[t].parent.Some? && !m[t].released ==> m[t].exitVal == exited[t])
    && (forall t :: t in m && t in exited ==> Over(m[t].pc) && m[t].parent.Some?)
    && (forall p :: p in m && m[p].pc.Collects? ==>
          m[p].pc.child in exited && m[p].pc.value == exited[m[p].pc.child])
  }

  /** Only the current thread runs. A finished thread that nobody waits for is doomed;
      while it is, the current thread has only started since, and so have its children
      not run. */
  ghost predicate Turn(m: map<Tid, Proc>, cur: Tid, doomed: Option<Tid>) {
    && cur in m && m[cur].started
    && (forall c, p :: c in m && m[c].parent == Some(p) && p in m ==> m[p].started)
    && (forall t :: t in m && m[t].status == Running ==> t == cur)
    && (forall t :: t in m && m[t].pc.Gone? && (m[t].released || m[t].parent.None?) ==> doomed == Some(t))
    && (doomed.Some? ==>
          && doomed.value in m && m[doomed.value].pc.Gone?
          && (m[doomed.value].released || m[doomed.value].parent.None?)
          && (cur == doomed.value || NewHere(m, cur)))
  }

  ghost predicate NewHere(m: map<Tid, Proc>, t: Tid)
    requires t in m
  {
    && m[t].parent.Some? && !m[t].released
    && (forall c :: c in m && m[c].parent == Some(t) ==> !m[c].started)
  }

  ghost predicate Ids(m: map<Tid, Proc>, exited: map<Tid, int>, nextId: Tid) {
    && nextId > ROOT
    && (forall t :: t in m ==> ROOT <= t < nextId)
    && (forall t :: t in exited ==> ROOT <= t < nextId)
    && (forall t :: t in m ==>
          match m[t].parent
          case None => t == ROOT
          case Some(p) => p < t)
  }

  ghost predicate Reported(reports: seq<Report>, c: Tid) {
    exists i :: 0 <= i < |reports| && reports[i].child == c
  }

  ghost predicate WasFreed(freed: seq<Freed>, t: Tid) {
    exists i :: 0 <= i < |freed| && freed[i].who == t
  }

  /** Each child is reported once, with the value it exited with; then it is released,
      or it is deleted. */
  ghost predicate Reports(m: map<Tid, Proc>, exited: map<Tid, int>, reports: seq<Report>) {
    && (forall i, j :: 0 <= i < j < |reports| ==> reports[i].child != reports[j].child)
    && (forall i :: 0 <= i < |reports| ==>
          && reports[i].child in exited
          && (reports[i].value.Some? ==> reports[i].value.value == exited[reports[i].child]))
    && (forall t :: t in m ==> (Reported(reports, t) <==> m[t].released))
  }

  /** Each process is deleted at most once, and not before it has been reported. */
  ghost predicate Deletions(m: map<Tid, Proc>, reports: seq<Report>, freed: seq<Freed>, nextId: Tid) {
    && (forall i, j :: 0 <= i < j < |freed| ==> freed[i].who != freed[j].who)
    && (forall t :: ROOT <= t < nextId ==> (t in m <==> !WasFreed(freed, t)))
    && (forall i :: 0 <= i < |freed| ==>
          freed[i].who < nextId && (freed[i].who == ROOT || Reported(reports, freed[i].who)))
  }

  ghost predicate Inv(w: World) {
    && Families(w.procs) && Lists(w.procs) && Locals(w.procs)
    && Values(w.procs, w.exited) && Turn(w.procs, w.cur, w.doomed)
    && Ids(w.procs, w.exited, w.nextId) && Reports(w.procs, w.exited, w.reports)
    && Deletions(w.procs, w.reports, w.freed, w.nextId)
  }
}
