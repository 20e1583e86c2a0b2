/** The life of a process (kernel/proc.c) as a machine of atomic steps.

    A step is one critical section of a p->lock or, where wait_lock or the
    process's own lock stays held, what happens up to the next lock operation.  It
    needs the locks it acquires to be free, so every interleaving of processes and
    CPUs is some sequence of steps.  `pc` says where a process's thread is, and
    with it whether the process's lock is held across steps. */
module Processes {
  import opened Common

  datatype ProcState = UNUSED | USED | SLEEPING | RUNNABLE | RUNNING | ZOMBIE

  /** What a process sleeps on: a process, in wait(), or something else. */
  datatype Chan = Nothing | OnProc(p: nat) | OnOther(c: nat)

  /** Why a thread called sched(): where it goes on when it runs again.  A timer tick makes
      it yield wherever it holds no lock. */
  datatype Why = New | Yielded(to: Pc) | Slept | Waiting | Exited

  datatype Pc =
    | Absent                       // no thread: the slot is UNUSED
    | Embryo                       // USED: allocated by a forking process
    | Run                          // anywhere else, holding none of these locks
    | ForkParent(np: nat)          // fork: np allocated, its lock released
    | ForkReady(np: nat)           // fork: np->parent set
    | ExitReparent(i: nat)         // exit: wait_lock held, children below i passed on
    | ExitWakeInit(i: nat, j: nat) // exit: child i passed on, wakeup(initproc) at slot j
    | ExitWakeParent(j: nat)       // exit: wakeup(p->parent) at slot j
    | ExitZombie                   // exit: ZOMBIE, p->lock and wait_lock held
    | WaitAgain                    // wait: about to acquire wait_lock
    | WaitScan(i: nat, kids: bool) // wait: wait_lock held, slots below i seen
    | WaitSleep                    // wait: about to call sleep(), wait_lock held
    | SleepLocked                  // wait: in sleep(), wait_lock and p->lock held
    | SleepUnlocked                // wait: in sleep(), wait_lock released
    | SwitchOut(why: Why)          // in sched(), p->lock held
    | Out(why: Why)                // switched out, p->lock released by the scheduler
    | In(why: Why)                 // switched in, p->lock still held by the scheduler

  /** struct proc; exits and reaps count how often the slot became and ceased to be
      ZOMBIE. */
  datatype Proc = Proc(state: ProcState, chan: Chan, killed: bool, parent: Option<nat>, pc: Pc, exits: nat, reaps: nat)

  datatype State = State(procs: seq<Proc>, waitLock: Option<nat>, init: nat)

  /** p->lock is held, by the process itself or by the scheduler on its behalf. */
  predicate OwnLock(pc: Pc) {
    pc.ExitZombie? || pc.SleepLocked? || pc.SleepUnlocked? || pc.SwitchOut? || pc.In?
  }

  /** Where a thread with interrupts on may be, among these. */
  predicate Preemptible(pc: Pc) {
    pc.Run? || pc.ForkParent? || pc.ForkReady? || pc.WaitAgain?
  }

  /** Where it goes on. */
  function Resumed(why: Why): Pc {
    match why
    case Waiting => WaitAgain
    case Yielded(to) => to
    case _ => Run
  }

  /* -------- the steps -------- */

  datatype Action =
    | ForkAlloc(p: nat, np: nat) | ForkSetParent(p: nat) | ForkRunnable(p: nat)
    | Exit(p: nat) | Reparent(p: nat) | WakeInit(p: nat) | WakeParent(p: nat) | BecomeZombie(p: nat)
    | ExitUnlock(p: nat) | Wait(p: nat) | Scan(p: nat, copied: bool) | ScanEnd(p: nat) | SleepLock(p: nat)
    | SleepRelease(p: nat) | GoToSleep(p: nat)
    | Yield(p: nat) | SleepOn(p: nat, c: nat) | SchedRelease(p: nat) | Schedule(p: nat) | Resume(p: nat)
    | Kill(p: nat) | WakeOther(p: nat, c: nat)

  predicate Free(s: State, i: nat) {
    i < |s.procs| && !OwnLock(s.procs[i].pc)
  }

  /** freeproc. */
  function Freed(x: Proc): Proc {
    x.(state := UNUSED, chan := Nothing, killed := false, parent := None, pc := Absent)
  }

  /** wakeup(chan) looking at a process other than its own. */
  function Woken(y: Proc, chan: Chan): Proc {
    if y.state == SLEEPING && y.chan == chan then y.(state := RUNNABLE) else y
  }

  function ParentChan(y: Proc): Chan {
    if y.parent.Some? then OnProc(y.parent.value) else Nothing
  }

  predicate Enabled(s: State, a: Action) {
    && a.p < |s.procs|
    && var n, x := |s.procs|, s.procs[a.p];
    var pc := x.pc;
    match a
    case ForkAlloc(p, np) => pc.Run? && Free(s, np) && s.procs[np].state == UNUSED
    case ForkSetParent(p) => pc.ForkParent? && pc.np < n && s.waitLock == None
    case ForkRunnable(p) => pc.ForkReady? && Free(s, pc.np)
    case Exit(p) => pc.Run? && p != s.init && s.waitLock == None
    case Reparent(p) => pc.ExitReparent?
    case WakeInit(p) => pc.ExitWakeInit? && (pc.j >= n || pc.j == p || Free(s, pc.j))
    case WakeParent(p) => pc.ExitWakeParent? && pc.j < n && (pc.j == p || Free(s, pc.j))
    case BecomeZombie(p) => pc.ExitWakeParent? && pc.j >= n && Free(s, p)
    case ExitUnlock(p) => pc.ExitZombie?
    case Wait(p) => (pc.Run? || pc.WaitAgain?) && s.waitLock == None
    case Scan(p, _) => pc.WaitScan? && pc.i < n && (s.procs[pc.i].parent == Some(p) ==> Free(s, pc.i))
    case ScanEnd(p) => pc.WaitScan? && pc.i >= n
    case SleepLock(p) => pc.WaitSleep? && Free(s, p)
    case SleepRelease(p) => pc.SleepLocked?
    case GoToSleep(p) => pc.SleepUnlocked?
    case Yield(p) => Preemptible(pc) && Free(s, p)
    case SleepOn(p, _) => pc.Run? && Free(s, p)
    case SchedRelease(p) => pc.SwitchOut?
    case Schedule(p) => x.state == RUNNABLE && pc.Out? && Free(s, p)
    case Resume(p) => pc.In?
    case Kill(p) => Free(s, p)
    case WakeOther(p, _) => Free(s, p)
  }

  /** Slot x after the step. */
  function After(s: State, a: Action, x: nat): Proc
    requires Enabled(s, a) && x < |s.procs|
  {
    var n, y, pc := |s.procs|, s.procs[x], s.procs[a.p].pc;
    match a
    case ForkAlloc(p, np) =>
      if x == np then y.(state := USED, pc := Embryo) else if x == p then y.(pc := ForkParent(np)) else y
    case ForkSetParent(p) =>
      if x == pc.np then y.(parent := Some(p)) else if x == p then y.(pc := ForkReady(pc.np)) else y
    case ForkRunnable(p) =>
      if x == pc.np then y.(state := RUNNABLE, pc := Out(New)) else if x == p then y.(pc := Run) else y
    case Exit(p) => if x == p then y.(pc := ExitReparent(0)) else y
    case Reparent(p) =>
      var child := pc.i < n && s.procs[pc.i].parent == Some(p);
      if x == p then
        y.(pc := if pc.i >= n then ExitWakeParent(0) else if child then ExitWakeInit(pc.i, 0)
          else ExitReparent(pc.i + 1))
      else if x == pc.i && child then y.(parent := Some(s.init))
      else y
    case WakeInit(p) =>
      if x == p then y.(pc := if pc.j >= n then ExitReparent(pc.i + 1) else ExitWakeInit(pc.i, pc.j + 1))
      else if x == pc.j then Woken(y, OnProc(s.init))
      else y
    case WakeParent(p) =>
      if x == p then y.(pc := ExitWakeParent(pc.j + 1))
      else if x == pc.j then Woken(y, ParentChan(s.procs[p]))
      else y
    case BecomeZombie(p) => if x == p then y.(state := ZOMBIE, pc := ExitZombie, exits := y.exits + 1) else y
    case ExitUnlock(p) => if x == p then y.(pc := SwitchOut(Exited)) else y
    case Wait(p) => if x == p then y.(pc := WaitScan(0, false)) else y
    case Scan(p, copied) =>
      var c := s.procs[pc.i];
      if x == p then
        y.(pc := if c.parent != Some(p) then WaitScan(pc.i + 1, pc.kids)
                 else if c.state != ZOMBIE then WaitScan(pc.i + 1, true) else Run)
      else if x == pc.i && c.parent == Some(p) && c.state == ZOMBIE && copied then Freed(y).(reaps := y.reaps + 1)
      else y
    case ScanEnd(p) => if x == p then y.(pc := if !pc.kids || y.killed then Run else WaitSleep) else y
    case SleepLock(p) => if x == p then y.(pc := SleepLocked) else y
    case SleepRelease(p) => if x == p then y.(pc := SleepUnlocked) else y
    case GoToSleep(p) => if x == p then y.(chan := OnProc(p), state := SLEEPING, pc := SwitchOut(Waiting)) else y
    case Yield(p) => if x == p then y.(state := RUNNABLE, pc := SwitchOut(Yielded(pc))) else y
    case SleepOn(p, c) => if x == p then y.(chan := OnOther(c), state := SLEEPING, pc := SwitchOut(Slept)) else y
    case SchedRelease(p) => if x == p then y.(pc := Out(pc.why)) else y
    case Schedule(p) => if x == p then y.(state := RUNNING, pc := In(pc.why)) else y
    case Resume(p) => if x == p then y.(chan := Nothing, pc := Resumed(pc.why)) else y
    case Kill(p) => if x == p then y.(killed := true, state := if y.state == SLEEPING then RUNNABLE else y.state) else y
    case WakeOther(p, c) => if x == p then Woken(y, OnOther(c)) else y
  }

  /** Who has wait_lock after the step. */
  function WaitLockAfter(s: State, a: Action): Option<nat>
    requires Enabled(s, a)
  {
    var x := s.procs[a.p];
    match a
    case Exit(p) => Some(p)
    case ExitUnlock(_) => None
    case Wait(p) => Some(p)
    case Scan(p, _) =>
      if s.procs[x.pc.i].parent == Some(p) && s.procs[x.pc.i].state == ZOMBIE then None else s.waitLock
    case ScanEnd(_) => if !x.pc.kids || x.killed then None else s.waitLock
    case SleepRelease(_) => None
    case _ => s.waitLock
  }

  function Next(s: State, a: Action): (r: State)
    requires Enabled(s, a)
    ensures |r.procs| == |s.procs|
  {
    State(seq(|s.procs|, x requires 0 <= x < |s.procs| => After(s, a, x)), WaitLockAfter(s, a), s.init)
  }

  /* -------- what every step keeps -------- */

  /** Where wait_lock is held. */
  predicate HoldsWait(pc: Pc) {
    Exiting(pc) || pc.WaitScan? || pc.WaitSleep? || pc.SleepLocked?
  }

  predicate Exiting(pc: Pc) {
    pc.ExitReparent? || pc.ExitWakeInit? || pc.ExitWakeParent? || pc.ExitZombie?
  }

  predicate Alive(x: Proc) {
    x.state == RUNNING || x.state == RUNNABLE || x.state == SLEEPING
  }

  predicate Parked(x: Proc, why: Why) {
    match why
    case New => x.state == RUNNABLE
    case Yielded(to) => x.state == RUNNABLE && Preemptible(to)
    case Slept => x.state == SLEEPING || x.state == RUNNABLE
    case Waiting => x.state == SLEEPING || x.state == RUNNABLE
    case Exited => x.state == ZOMBIE
  }

  /** The channel is that of the sleep the thread is in, and there is none otherwise. */
  predicate OnChan(x: Proc, p: nat) {
    if !(x.pc.SwitchOut? || x.pc.Out? || x.pc.In?) then x.chan == Nothing
    else if x.pc.why == Slept then x.chan.OnOther?
    else x.chan == if x.pc.why == Waiting then OnProc(p) else Nothing
  }

  /** State and channel fit where the process's thread is. */
  predicate Fits(x: Proc, p: nat) {
    OnChan(x, p) && InState(x)
  }

  predicate InState(x: Proc) {
    match x.pc
    case Absent => x.state == UNUSED && x.parent == None
    case Embryo => x.state == USED
    case ExitZombie => x.state == ZOMBIE
    case SwitchOut(why) => Parked(x, why) && (x.state == RUNNABLE <==> why.Yielded?)
    case Out(why) => Parked(x, why)
    case In(why) => x.state == RUNNING && why != Exited && (why.Yielded? ==> Preemptible(why.to))
    case _ => x.state == RUNNING
  }

  ghost predicate Coherent(s: State, x: nat)
    requires x < |s.procs|
  {
    Fits(s.procs[x], x) && (HoldsWait(s.procs[x].pc) <==> s.waitLock == Some(x)) &&
    (x == s.init ==> Alive(s.procs[x]) && !Exiting(s.procs[x].pc) && s.procs[x].parent == None)
  }

  /** A slot has ceased to be ZOMBIE as often as it became so, or once less. */
  predicate Counted(x: Proc) {
    x.exits == x.reaps + if x.state == ZOMBIE then 1 else 0
  }

  /** Parent and fork target, if any, are slots. */
  predicate InRange(s: State, x: nat)
    requires x < |s.procs|
  {
    && (s.procs[x].parent.Some? ==> s.procs[x].parent.value < |s.procs|)
    && (Forking(s.procs[x].pc).Some? ==> Forking(s.procs[x].pc).value < |s.procs|)
  }

  /** Where a thread is, or was when it was made to yield. */
  function At(pc: Pc): Pc {
    if (pc.SwitchOut? || pc.Out? || pc.In?) && pc.why.Yielded? then pc.why.to else pc
  }

  /** Which slot a forking process is filling. */
  function Forking(pc: Pc): Option<nat> {
    if At(pc).ForkParent? || At(pc).ForkReady? then Some(At(pc).np) else None
  }

  /** A forking process fills a half-made slot, which has no parent and then that one. */
  ghost predicate ForkOk(s: State, x: nat, y: nat)
    requires x < |s.procs| && y < |s.procs|
  {
    Forking(s.procs[x].pc) == Some(y) ==>
      s.procs[y].pc == Embryo && s.procs[y].parent == if At(s.procs[x].pc).ForkParent? then None else Some(x)
  }

  /** Every process but init has a parent, once it is made. */
  ghost predicate HasParent(s: State, x: nat)
    requires x < |s.procs|
  {
    x != s.init && s.procs[x].pc != Absent && s.procs[x].pc != Embryo ==> s.procs[x].parent.Some?
  }

  /** What wait() has found out about its children, q's, up to slot c. */
  ghost predicate NoKidsYet(s: State, c: nat, q: nat)
    requires c < |s.procs| && q < |s.procs|
  {
    var pc := s.procs[q].pc;
    pc.WaitScan? && !pc.kids && c < pc.i ==> s.procs[c].parent != Some(q)
  }

  ghost predicate KidSeen(s: State, q: nat)
    requires q < |s.procs|
  {
    var pc := s.procs[q].pc;
    pc.WaitScan? && pc.kids ==> exists c: nat :: c < |s.procs| && s.procs[c].parent == Some(q)
  }

  /** No two processes fill the same slot. */
  ghost predicate ForksApart(s: State, x: nat, y: nat)
    requires x < |s.procs| && y < |s.procs|
  {
    x != y && Forking(s.procs[x].pc).Some? ==> Forking(s.procs[x].pc) != Forking(s.procs[y].pc)
  }

  /** How many slots a process, exiting, has made sure are not its children. */
  function Passed(pc: Pc, n: nat): nat {
    match pc
    case ExitReparent(i) => i
    case ExitWakeInit(i, _) => i + 1
    case ExitWakeParent(_) => n
    case _ => 0
  }

  /** A process that is done passing on its children up to c is not c's parent. */
  ghost predicate PassedOn(s: State, c: nat, q: nat)
    requires c < |s.procs| && q < |s.procs|
  {
    s.procs[c].parent == Some(q) ==> Passed(s.procs[q].pc, |s.procs|) <= c
  }

  /** A parent is alive, neither UNUSED nor ZOMBIE nor half made. */
  ghost predicate ParentOk(s: State, c: nat, q: nat)
    requires c < |s.procs| && q < |s.procs|
  {
    s.procs[c].parent == Some(q) ==> q != c && Alive(s.procs[q])
  }

  /** How many slots a process, in wait(), knows not to be ZOMBIE children. */
  function Seen(pc: Pc, n: nat): nat {
    match pc
    case WaitScan(i, _) => i
    case WaitSleep => n
    case SleepLocked => n
    case _ => 0
  }

  /** Asleep in wait(), or past the point of no return on the way there. */
  predicate Dozing(x: Proc) {
    x.pc == SleepUnlocked || x.pc == SwitchOut(Waiting) || (x.pc == Out(Waiting) && x.state == SLEEPING)
  }

  /** Once wakeup(p->parent) has passed the parent's slot, the parent is awake. */
  ghost predicate ParentWoken(s: State, p: nat, q: nat)
    requires p < |s.procs| && q < |s.procs|
  {
    s.procs[p].pc.ExitWakeParent? && s.procs[p].parent == Some(q) && q < s.procs[p].pc.j ==> !Dozing(s.procs[q])
  }

  /** Some exiting process is about to wake init. */
  ghost predicate InitDue(s: State) {
    s.waitLock.Some? && s.waitLock.value < |s.procs| &&
    var pc := s.procs[s.waitLock.value].pc; pc.ExitWakeInit? && pc.j <= s.init
  }

  /** A ZOMBIE's parent has not looked past it. */
  ghost predicate NotPast(s: State, c: nat, q: nat)
    requires c < |s.procs| && q < |s.procs|
  {
    s.procs[c].state == ZOMBIE && s.procs[c].parent == Some(q) ==> Seen(s.procs[q].pc, |s.procs|) <= c
  }

  /** And it is not dozing, unless it is init and about to be woken. */
  ghost predicate NoMiss(s: State, c: nat, q: nat)
    requires c < |s.procs| && q < |s.procs|
  {
    s.procs[c].state == ZOMBIE && s.procs[c].parent == Some(q) && Dozing(s.procs[q]) ==> q == s.init && InitDue(s)
  }

  /** What holds of slots x and y. */
  ghost predicate Pair(s: State, x: nat, y: nat)
    requires x < |s.procs| && y < |s.procs|
  {
    && Coherent(s, x) && Coherent(s, y) && InRange(s, x) && Counted(s.procs[x])
    && ForkOk(s, x, y) && ForksApart(s, x, y) && PassedOn(s, x, y) && ParentOk(s, x, y)
    && ParentWoken(s, x, y) && NotPast(s, x, y) && NoMiss(s, x, y)
    && HasParent(s, x) && NoKidsYet(s, x, y) && KidSeen(s, y)
  }

  ghost predicate Bounded(s: State) {
    s.init < |s.procs| && (s.waitLock.Some? ==> s.waitLock.value < |s.procs|)
  }

  ghost predicate Inv(s: State) {
    Bounded(s) && forall x: nat, y: nat | x < |s.procs| && y < |s.procs| :: Pair(s, x, y)
  }

  lemma BoundedStep(s: State, a: Action)
    requires Bounded(s) && Enabled(s, a)
    ensures Bounded(Next(s, a))
  {
  }

  /** Which parent the slot has after the step. */
  function ParentAfter(s: State, a: Action, x: nat): Option<nat>
    requires Enabled(s, a) && x < |s.procs|
  {
    var y, pc := s.procs[x], s.procs[a.p].pc;
    if a.ForkSetParent? && x == pc.np then Some(a.p)
    else if a.Reparent? && x != a.p && x == pc.i && y.parent == Some(a.p) then Some(s.init)
    else if a.Scan? && x != a.p && x == pc.i && y.parent == Some(a.p) && y.state == ZOMBIE && a.copied then None
    else y.parent
  }

  lemma ParentAt(s: State, a: Action, x: nat)
    requires Enabled(s, a) && x < |s.procs|
    ensures After(s, a, x).parent == ParentAfter(s, a, x)
  {
  }

  /** Which slot it is filling, and whether as its parent to be. */
  lemma ForkingAt(s: State, a: Action, x: nat)
    requires Enabled(s, a) && x < |s.procs| && Fits(s.procs[x], x) && ForkOk(s, a.p, x)
    ensures Forking(After(s, a, x).pc) ==
            if a.ForkAlloc? && x == a.p then Some(a.np)
            else if a.ForkRunnable? && x == a.p then None
            else Forking(s.procs[x].pc)
    ensures At(After(s, a, x).pc).ForkParent? ==
            if a.ForkAlloc? && x == a.p then true
            else if a.ForkSetParent? && x == a.p then false
            else At(s.procs[x].pc).ForkParent?
  {
  }

  lemma InRangeStep(s: State, a: Action, x: nat)
    requires Bounded(s) && Enabled(s, a) && x < |s.procs| && InRange(s, x) && Coherent(s, x) && ForkOk(s, a.p, x)
    ensures InRange(Next(s, a), x)
  {
    hide Next, After, Forking, At;
    NextAt(s, a, x);
    ParentAt(s, a, x);
    ForkingAt(s, a, x);
  }

  lemma CountedStep(s: State, a: Action, x: nat)
    requires Enabled(s, a) && x < |s.procs|
    requires Counted(s.procs[x]) && Coherent(s, x) && Coherent(s, a.p) && ForkOk(s, a.p, x)
    ensures Counted(Next(s, a).procs[x])
  {
  }

  lemma FitsStep(s: State, a: Action, x: nat)
    requires Enabled(s, a) && x < |s.procs|
    requires Coherent(s, x) && Coherent(s, a.p) && ForkOk(s, a.p, x)
    ensures Fits(Next(s, a).procs[x], x)
  {
    hide Next;
    NextAt(s, a, x);
    OnChanStep(s, a, x);
    InStateStep(s, a, x);
  }

  lemma OnChanStep(s: State, a: Action, x: nat)
    requires Enabled(s, a) && x < |s.procs| && Coherent(s, x) && Coherent(s, a.p) && ForkOk(s, a.p, x)
    ensures OnChan(After(s, a, x), x)
  {
  }

  lemma InStateStep(s: State, a: Action, x: nat)
    requires Enabled(s, a) && x < |s.procs| && Coherent(s, x) && Coherent(s, a.p) && ForkOk(s, a.p, x)
    ensures InState(After(s, a, x))
  {
    hide OnChan;
  }

  lemma HoldsWaitStep(s: State, a: Action, x: nat)
    requires Enabled(s, a) && x < |s.procs| && Coherent(s, x) && Coherent(s, a.p) && ForkOk(s, a.p, x)
    ensures HoldsWait(After(s, a, x).pc) <==> WaitLockAfter(s, a) == Some(x)
  {
    hide OnChan;
  }

  lemma InitStep(s: State, a: Action, x: nat)
    requires Enabled(s, a) && x < |s.procs| && Coherent(s, x) && Coherent(s, a.p) && ForkOk(s, a.p, x) && x == s.init
    ensures var p := After(s, a, x); Alive(p) && !Exiting(p.pc) && p.parent == None
  {
    hide OnChan;
  }

  lemma CoherentStep(s: State, a: Action, x: nat)
    requires Enabled(s, a) && x < |s.procs|
    requires Coherent(s, x) && Coherent(s, a.p) && ForkOk(s, a.p, x)
    ensures Coherent(Next(s, a), x)
  {
    hide Next, Fits, After, WaitLockAfter, HoldsWait, Alive;
    NextAt(s, a, x);
    FitsStep(s, a, x);
    HoldsWaitStep(s, a, x);
    if x == s.init { InitStep(s, a, x); }
  }

  lemma ForkOkStep(s: State, a: Action, x: nat, y: nat)
    requires Enabled(s, a) && x < |s.procs| && y < |s.procs|
    requires Coherent(s, x) && Coherent(s, y) && Coherent(s, a.p)
    requires ForkOk(s, x, y) && ForkOk(s, a.p, x) && ForkOk(s, a.p, y) && ForkOk(s, x, a.p) && ForksApart(s, x, a.p)
    ensures ForkOk(Next(s, a), x, y)
  {
    hide Next, Forking, At;
    NextAt(s, a, x);
    NextAt(s, a, y);
    ForkingAt(s, a, x);
    ForkingNow(s, a);
  }

  lemma ForkingNow(s: State, a: Action)
    requires Enabled(s, a)
    ensures a.ForkSetParent? ==> var pc := s.procs[a.p].pc; Forking(pc) == Some(pc.np) && At(pc).ForkParent?
    ensures a.ForkRunnable? ==> var pc := s.procs[a.p].pc; Forking(pc) == Some(pc.np)
    ensures a.Reparent? ==> Forking(s.procs[a.p].pc) == None
  {
  }

  lemma ForksApartStep(s: State, a: Action, x: nat, y: nat)
    requires Enabled(s, a) && x < |s.procs| && y < |s.procs| && ForksApart(s, x, y)
    requires Coherent(s, x) && Coherent(s, y) && ForkOk(s, a.p, x) && ForkOk(s, a.p, y)
    requires a.ForkAlloc? ==> Coherent(s, a.np) && ForkOk(s, x, a.np) && ForkOk(s, y, a.np)
    ensures ForksApart(Next(s, a), x, y)
  {
    hide Next, After, Forking, At;
    NextAt(s, a, x);
    NextAt(s, a, y);
    ForkingAt(s, a, x);
    ForkingAt(s, a, y);
  }

  lemma PassedOnStep(s: State, a: Action, x: nat, y: nat)
    requires Enabled(s, a) && x < |s.procs| && y < |s.procs| && s.init < |s.procs|
    requires Coherent(s, x) && Coherent(s, y) && Coherent(s, a.p) && Coherent(s, s.init)
    requires PassedOn(s, x, y) && ParentOk(s, x, y) && ForkOk(s, a.p, x)
    ensures PassedOn(Next(s, a), x, y)
  {
    hide Next, OnChan;
    NextAt(s, a, x);
    NextAt(s, a, y);
  }

  lemma ParentOkStep(s: State, a: Action, x: nat, y: nat)
    requires Enabled(s, a) && x < |s.procs| && y < |s.procs| && s.init < |s.procs|
    requires Coherent(s, x) && Coherent(s, y) && Coherent(s, a.p) && Coherent(s, s.init)
    requires ForkOk(s, a.p, x) && ForkOk(s, a.p, y) && PassedOn(s, x, y) && ParentOk(s, x, y)
    ensures ParentOk(Next(s, a), x, y)
  {
    hide Next, OnChan;
    NextAt(s, a, x);
    NextAt(s, a, y);
  }

  lemma NextAt(s: State, a: Action, x: nat)
    requires Enabled(s, a) && x < |s.procs|
    ensures Next(s, a).procs[x] == After(s, a, x) && Next(s, a).waitLock == WaitLockAfter(s, a)
            && Next(s, a).init == s.init
  {
  }

  lemma ParentWokenStep(s: State, a: Action, x: nat, y: nat)
    requires Enabled(s, a) && x < |s.procs| && y < |s.procs|
    requires Coherent(s, x) && Coherent(s, y) && Coherent(s, a.p)
    requires ParentWoken(s, x, y) && ParentOk(s, x, y) && ForkOk(s, a.p, y) && ForkOk(s, a.p, x)
    ensures ParentWoken(Next(s, a), x, y)
  {
    hide Next;
    NextAt(s, a, x);
    NextAt(s, a, y);
  }

  /** A step of another process moves neither wait_lock nor the thread that holds it. */
  lemma HolderStays(s: State, a: Action, w: nat)
    requires Enabled(s, a) && w < |s.procs| && s.waitLock == Some(w) && a.p != w
    requires Coherent(s, w) && Coherent(s, a.p) && ForkOk(s, a.p, w)
    ensures After(s, a, w).pc == s.procs[w].pc && WaitLockAfter(s, a) == Some(w)
  {
  }

  /** The holder itself goes on with its wakeup. */
  lemma HolderWakes(s: State, a: Action, w: nat)
    requires Enabled(s, a) && w < |s.procs| && s.waitLock == Some(w) && a.p == w && s.procs[w].pc.ExitWakeInit?
    requires Coherent(s, w) && s.init < |s.procs| && s.procs[w].pc.j <= s.init && Coherent(s, s.init)
    ensures WaitLockAfter(s, a) == Some(w)
    ensures After(s, a, w).pc == s.procs[w].pc ||
            (After(s, a, w).pc.ExitWakeInit? && After(s, a, w).pc.j == s.procs[w].pc.j + 1)
    ensures After(s, a, w).pc == s.procs[w].pc || s.procs[w].pc.j < s.init || !Dozing(After(s, a, s.init))
  {
  }

  /** Until init is awake, whoever passed it a ZOMBIE is about to wake it. */
  lemma InitDueStep(s: State, a: Action)
    requires Enabled(s, a) && InitDue(s) && s.init < |s.procs|
    requires Coherent(s, s.waitLock.value) && Coherent(s, s.init) && Coherent(s, a.p)
             && ForkOk(s, a.p, s.waitLock.value)
    ensures InitDue(Next(s, a)) || !Dozing(Next(s, a).procs[s.init])
  {
    hide Next, After, WaitLockAfter, Coherent, ForkOk;
    var w := s.waitLock.value;
    NextAt(s, a, w);
    NextAt(s, a, s.init);
    if a.p == w {
      HolderWakes(s, a, w);
    } else {
      HolderStays(s, a, w);
    }
  }

  lemma ReparentDue(s: State, a: Action)
    requires Enabled(s, a) && a.Reparent? && Coherent(s, a.p)
    ensures var i := s.procs[a.p].pc.i; i < |s.procs| && s.procs[i].parent == Some(a.p) ==> InitDue(Next(s, a))
  {
  }

  lemma HasParentStep(s: State, a: Action, x: nat)
    requires Enabled(s, a) && x < |s.procs| && HasParent(s, x) && ForkOk(s, a.p, x) && Coherent(s, x)
             && Coherent(s, a.p)
    ensures HasParent(Next(s, a), x)
  {
    hide Next;
    NextAt(s, a, x);
  }

  lemma NoKidsYetStep(s: State, a: Action, x: nat, y: nat)
    requires Enabled(s, a) && x < |s.procs| && y < |s.procs| && NoKidsYet(s, x, y)
    requires Coherent(s, x) && Coherent(s, y) && Coherent(s, a.p)
    requires s.init < |s.procs| && Coherent(s, s.init) && ForkOk(s, a.p, y)
    ensures NoKidsYet(Next(s, a), x, y)
  {
    hide Next;
    NextAt(s, a, x);
    NextAt(s, a, y);
    ParentAt(s, a, x);
  }

  lemma KidSeenStep(s: State, a: Action, y: nat)
    requires Enabled(s, a) && y < |s.procs| && KidSeen(s, y) && Coherent(s, y) && Coherent(s, a.p) && ForkOk(s, a.p, y)
    ensures KidSeen(Next(s, a), y)
  {
    hide Next;
    NextAt(s, a, y);
    if After(s, a, y).pc.WaitScan? && After(s, a, y).pc.kids {
      var c: nat := if a.Scan? && a.p == y && s.procs[s.procs[y].pc.i].parent == Some(y) then s.procs[y].pc.i
                    else KidOf(s, y);
      NextAt(s, a, c);
      ParentAt(s, a, c);
    }
  }

  ghost function KidOf(s: State, q: nat): (c: nat)
    requires q < |s.procs| && KidSeen(s, q) && s.procs[q].pc.WaitScan? && s.procs[q].pc.kids
    ensures c < |s.procs| && s.procs[c].parent == Some(q)
  {
    var c: nat :| c < |s.procs| && s.procs[c].parent == Some(q);
    c
  }

  lemma NotPastStep(s: State, a: Action, x: nat, y: nat)
    requires Enabled(s, a) && x < |s.procs| && y < |s.procs| && s.init < |s.procs|
    requires Coherent(s, x) && Coherent(s, y) && Coherent(s, a.p) && Coherent(s, s.init)
    requires NotPast(s, x, y) && ForkOk(s, a.p, x)
    ensures NotPast(Next(s, a), x, y)
  {
    hide Next, OnChan;
    NextAt(s, a, x);
    NextAt(s, a, y);
  }

  /** Who dozes after a step did so before, or has just gone past the point of no return. */
  lemma DozingAt(s: State, a: Action, x: nat)
    requires Enabled(s, a) && x < |s.procs| && Coherent(s, x) && ForkOk(s, a.p, x) && Dozing(After(s, a, x))
    ensures Dozing(s.procs[x]) || (a.SleepRelease? && x == a.p)
  {
  }

  lemma ZombieAt(s: State, a: Action, x: nat)
    requires Enabled(s, a) && x < |s.procs| && After(s, a, x).state == ZOMBIE
    ensures s.procs[x].state == ZOMBIE || (a.BecomeZombie? && x == a.p)
  {
  }

  lemma NoMissStep(s: State, a: Action, x: nat, y: nat)
    requires Enabled(s, a) && x < |s.procs| && y < |s.procs| && s.init < |s.procs|
    requires Coherent(s, x) && Coherent(s, y) && Coherent(s, a.p)
    requires ParentWoken(s, x, y) && NotPast(s, x, y) && NoMiss(s, x, y) && ForkOk(s, a.p, x) && ForkOk(s, a.p, y)
    requires InitDue(s) ==> Coherent(s, s.init) && Coherent(s, s.waitLock.value) && ForkOk(s, a.p, s.waitLock.value)
    ensures NoMiss(Next(s, a), x, y)
  {
    hide InitDue, Next, After, Dozing;
    NextAt(s, a, x);
    NextAt(s, a, y);
    ParentAt(s, a, x);
    if InitDue(s) {
      InitDueStep(s, a);
      NextAt(s, a, s.init);
    }
    if a.Reparent? { ReparentDue(s, a); }
    if Dozing(After(s, a, y)) && After(s, a, x).state == ZOMBIE {
      DozingAt(s, a, y);
      ZombieAt(s, a, x);
    }
  }

  /** Every step keeps the invariant. */
  lemma InvStep(s: State, a: Action)
    requires Inv(s) && Enabled(s, a)
    ensures Inv(Next(s, a))
  {
    hide Coherent, InRange, Counted, ForkOk, ForksApart, PassedOn, ParentOk, ParentWoken, NotPast, NoMiss, Next,
         HasParent, NoKidsYet, KidSeen, Enabled, InitDue, Bounded;
    EnabledSlots(s, a);
    BoundedStep(s, a);
    forall x: nat, y: nat | x < |s.procs| && y < |s.procs| ensures Pair(Next(s, a), x, y) {
      assert Pair(s, x, y) && Pair(s, a.p, x) && Pair(s, a.p, y) && Pair(s, x, a.p) && Pair(s, s.init, x);
      if a.ForkAlloc? { assert Pair(s, x, a.np) && Pair(s, y, a.np); }
      if InitDue(s) { assert Pair(s, a.p, s.waitLock.value); }
      InRangeStep(s, a, x);
      CountedStep(s, a, x);
      CoherentStep(s, a, x);
      CoherentStep(s, a, y);
      ForkOkStep(s, a, x, y);
      ForksApartStep(s, a, x, y);
      PassedOnStep(s, a, x, y);
      ParentOkStep(s, a, x, y);
      ParentWokenStep(s, a, x, y);
      NotPastStep(s, a, x, y);
      NoMissStep(s, a, x, y);
      HasParentStep(s, a, x);
      NoKidsYetStep(s, a, x, y);
      KidSeenStep(s, a, y);
    }
  }

  lemma EnabledSlots(s: State, a: Action)
    requires Bounded(s) && Enabled(s, a)
    ensures a.p < |s.procs| && s.init < |s.procs| && (a.ForkAlloc? ==> a.np < |s.procs|)
    ensures InitDue(s) ==> s.waitLock.Some? && s.waitLock.value < |s.procs|
  {
  }

  /* -------- over whole runs -------- */

  /** After userinit: init can run, every other slot is free. */
  ghost predicate Boot(s: State) {
    && s.init < |s.procs| && s.waitLock == None
    && (forall x: nat | x < |s.procs| :: s.procs[x] ==
          if x == s.init then Proc(RUNNABLE, Nothing, false, None, Out(New), 0, 0)
          else Proc(UNUSED, Nothing, false, None, Absent, 0, 0))
  }

  /** A run: each state follows from the one before by an enabled step. */
  ghost predicate IsRun(states: seq<State>, steps: seq<Action>) {
    && |states| == |steps| + 1 && Boot(states[0])
    && (forall i | 0 <= i < |steps| :: Enabled(states[i], steps[i]) && states[i + 1] == Next(states[i], steps[i]))
  }

  lemma BootInv(s: State)
    requires Boot(s)
    ensures Inv(s)
  {
  }

  lemma {:induction false} RunInv(states: seq<State>, steps: seq<Action>, k: nat)
    requires IsRun(states, steps) && k < |states|
    ensures Inv(states[k])
  {
    hide Inv, Next, Enabled, Boot;
    if k == 0 {
      BootInv(states[0]);
    } else {
      RunInv(states, steps, k - 1);
      InvStep(states[k - 1], steps[k - 1]);
    }
  }

  /** The promise of wait_lock: in no state of any run, with wait_lock and the
      sleeper's own lock free, does a process asleep in wait() have a ZOMBIE child. */
  lemma NoMissedExit(states: seq<State>, steps: seq<Action>, k: nat, q: nat, c: nat)
    requires IsRun(states, steps) && k < |states|
    requires var s := states[k];
             q < |s.procs| && c < |s.procs| && s.waitLock == None && Free(s, q) &&
             s.procs[q].state == SLEEPING && s.procs[q].chan == OnProc(q) && s.procs[c].parent == Some(q)
    ensures states[k].procs[c].state != ZOMBIE
  {
    RunInv(states, steps, k);
    assert Pair(states[k], c, q);
  }

  /** A parent is always there to wait: never UNUSED, never ZOMBIE. */
  lemma ParentsAlive(states: seq<State>, steps: seq<Action>, k: nat, c: nat)
    requires IsRun(states, steps) && k < |states| && c < |states[k].procs| && states[k].procs[c].parent.Some?
    ensures var q := states[k].procs[c].parent.value;
            q < |states[k].procs| && q != c && states[k].procs[q].state in {SLEEPING, RUNNABLE, RUNNING}
  {
    RunInv(states, steps, k);
    assert Pair(states[k], c, c);
    assert Pair(states[k], c, states[k].procs[c].parent.value);
  }

  lemma ReapStep(s: State, a: Action, c: nat)
    requires Enabled(s, a) && c < |s.procs| && Coherent(s, c) && Coherent(s, a.p) && Counted(s.procs[c])
    requires Next(s, a).procs[c].reaps != s.procs[c].reaps
    ensures a.Scan? && s.procs[c].parent == Some(a.p)
    ensures s.procs[c].pc == Out(Exited) && s.procs[c].state == ZOMBIE && Next(s, a).procs[c].state == UNUSED
    ensures Next(s, a).procs[c].reaps == s.procs[c].reaps + 1 == s.procs[c].exits
  {
  }

  /** A child is reaped only by its parent, once the scheduler has let go of it, and as
      often as it exited. */
  lemma ReapedOnce(states: seq<State>, steps: seq<Action>, k: nat, c: nat)
    requires IsRun(states, steps) && k < |steps| && c < |states[k].procs|
    requires states[k + 1].procs[c].reaps != states[k].procs[c].reaps
    ensures steps[k].Scan? && states[k].procs[c].parent == Some(steps[k].p)
    ensures states[k].procs[c].pc == Out(Exited) && states[k].procs[c].state == ZOMBIE
    ensures states[k + 1].procs[c].state == UNUSED
    ensures states[k + 1].procs[c].reaps == states[k].procs[c].reaps + 1 == states[k].procs[c].exits
  {
    hide Next;
    RunInv(states, steps, k);
    assert Pair(states[k], c, c) && Pair(states[k], steps[k].p, c);
    ReapStep(states[k], steps[k], c);
  }

  /* -------- kill -------- */

  /** The step puts p to sleep. */
  predicate Sleeps(a: Action, p: nat) {
    (a.GoToSleep? || a.SleepOn?) && a.p == p
  }

  /** Slot p is in use throughout states j to k. */
  ghost predicate InUse(states: seq<State>, j: nat, k: nat, p: nat) {
    forall m | j <= m <= k && m < |states| :: p < |states[m].procs| && states[m].procs[p].state != UNUSED
  }

  lemma KilledStep(s: State, a: Action, p: nat)
    requires Enabled(s, a) && p < |s.procs| && Next(s, a).procs[p].state != UNUSED
    ensures s.procs[p].killed || a == Kill(p) ==> Next(s, a).procs[p].killed
    ensures a == Kill(p) || (s.procs[p].state != SLEEPING && !Sleeps(a, p)) ==> Next(s, a).procs[p].state != SLEEPING
  {
  }

  /** A process stays killed for the rest of its life. */
  lemma {:induction false} KillSticks(states: seq<State>, steps: seq<Action>, j: nat, k: nat, p: nat)
    requires IsRun(states, steps) && j < k < |states| && steps[j] == Kill(p) && InUse(states, j + 1, k, p)
    ensures states[k].procs[p].killed
    decreases k
  {
    hide Next, Enabled, Boot;
    SameSlots(states, steps, k - 1);
    if k > j + 1 {
      KillSticks(states, steps, j, k - 1, p);
    }
    KilledStep(states[k - 1], steps[k - 1], p);
  }

  /** And kill has woken it: it does not sleep, until it goes to sleep again. */
  lemma {:induction false} KillWakes(states: seq<State>, steps: seq<Action>, j: nat, k: nat, p: nat)
    requires IsRun(states, steps) && j < k < |states| && steps[j] == Kill(p) && InUse(states, j + 1, k, p)
    requires forall m | j < m < k :: !Sleeps(steps[m], p)
    ensures states[k].procs[p].killed && states[k].procs[p].state != SLEEPING
    decreases k
  {
    hide Next, Enabled, Boot, Sleeps;
    KillSticks(states, steps, j, k, p);
    SameSlots(states, steps, k - 1);
    if k > j + 1 {
      KillWakes(states, steps, j, k - 1, p);
    }
    KilledStep(states[k - 1], steps[k - 1], p);
  }

  lemma SameSlots(states: seq<State>, steps: seq<Action>, k: nat)
    requires IsRun(states, steps) && k < |steps|
    ensures |states[k + 1].procs| == |states[k].procs| && Enabled(states[k], steps[k])
    ensures states[k + 1] == Next(states[k], steps[k]) && states[k + 1].init == states[k].init
    ensures steps[k].p < |states[k].procs|
  {
    hide Boot;
  }

  /** A killed process that finds no ZOMBIE child leaves wait(). */
  lemma KilledLeavesWait(states: seq<State>, steps: seq<Action>, j: nat, k: nat, p: nat)
    requires IsRun(states, steps) && j < k < |steps| && steps[j] == Kill(p) && InUse(states, j + 1, k, p)
    requires steps[k] == ScanEnd(p)
    ensures states[k + 1].procs[p].pc == Run && states[k + 1].waitLock == None
  {
    KillSticks(states, steps, j, k, p);
    SameSlots(states, steps, k);
  }

  /** And wait() ends, with no child found, exactly if there is none or the process is killed. */
  lemma WaitEndsIff(states: seq<State>, steps: seq<Action>, k: nat, p: nat)
    requires IsRun(states, steps) && k < |steps| && steps[k] == ScanEnd(p)
    ensures p < |states[k].procs| == |states[k + 1].procs|
    ensures states[k + 1].procs[p].pc == Run || states[k + 1].procs[p].pc == WaitSleep
    ensures states[k + 1].procs[p].pc == Run <==>
              || states[k].procs[p].killed
              || forall c: nat | c < |states[k].procs| :: states[k].procs[c].parent != Some(p)
  {
    hide Boot;
    RunInv(states, steps, k);
    SameSlots(states, steps, k);
    assert Pair(states[k], p, p);
    forall c: nat | c < |states[k].procs| && !states[k].procs[p].pc.kids
      ensures states[k].procs[c].parent != Some(p)
    {
      assert Pair(states[k], c, p);
    }
  }

  /** On its way into wait()'s sleep. */
  predicate Settling(pc: Pc) {
    pc.WaitSleep? || pc.SleepLocked? || pc.SleepUnlocked?
  }

  lemma SettlingStep(s: State, a: Action, p: nat)
    requires Enabled(s, a) && p < |s.procs| && Coherent(s, p) && ForkOk(s, a.p, p) && Settling(After(s, a, p).pc)
    requires After(s, a, p).killed
    ensures Settling(s.procs[p].pc) && (s.procs[p].killed || (a == Kill(p) && s.procs[p].pc == WaitSleep))
  {
  }

  /** Kill came at step i, between the look at killed and sleep()'s acquiring of the lock. */
  ghost predicate TooLate(states: seq<State>, steps: seq<Action>, i: nat, k: nat, p: nat) {
    && i < |steps| && i < |states| && i < k && steps[i] == Kill(p)
    && p < |states[i].procs| && states[i].procs[p].pc == WaitSleep
    && forall m | i <= m <= k && m < |states| :: p < |states[m].procs| && Settling(states[m].procs[p].pc)
  }

  /** A killed process goes to sleep in wait() nevertheless exactly if the kill came too late. */
  lemma {:induction false} KilledSleepsIff(states: seq<State>, steps: seq<Action>, k: nat, p: nat)
    requires IsRun(states, steps) && k < |states| && p < |states[k].procs| && Settling(states[k].procs[p].pc)
    ensures states[k].procs[p].killed <==> exists i: nat :: TooLate(states, steps, i, k, p)
    decreases k
  {
    hide Next, Enabled, Boot;
    if states[k].procs[p].killed {
      KilledTooLate(states, steps, k, p);
    }
    if i: nat :| TooLate(states, steps, i, k, p) {
      forall m: nat | m <= k ensures |states[m].procs| == |states[k].procs| {
        SlotsFrom(states, steps, m, k);
      }
      SettlingUsed(states, steps, i, k, p);
      KillSticks(states, steps, i, k, p);
    }
  }

  lemma {:induction false} SlotsFrom(states: seq<State>, steps: seq<Action>, m: nat, k: nat)
    requires IsRun(states, steps) && m <= k < |states|
    ensures |states[m].procs| == |states[k].procs| && states[m].init == states[k].init
    decreases k
  {
    if m < k {
      SameSlots(states, steps, k - 1);
      SlotsFrom(states, steps, m, k - 1);
    }
  }

  lemma SettlingUsed(states: seq<State>, steps: seq<Action>, i: nat, k: nat, p: nat)
    requires IsRun(states, steps) && k < |states| && TooLate(states, steps, i, k, p)
    ensures InUse(states, i + 1, k, p)
  {
    forall m | i + 1 <= m <= k
      ensures p < |states[m].procs| && states[m].procs[p].state != UNUSED
    {
      RunInv(states, steps, m);
      assert Pair(states[m], p, p);
    }
  }

  lemma {:induction false} KilledTooLate(states: seq<State>, steps: seq<Action>, k: nat, p: nat)
    requires IsRun(states, steps) && k < |states| && p < |states[k].procs| && Settling(states[k].procs[p].pc)
    requires states[k].procs[p].killed
    ensures exists i: nat :: TooLate(states, steps, i, k, p)
    decreases k
  {
    hide Next, Enabled, Inv, Coherent, ForkOk, Settling, Boot;
    if k == 0 {
      BootAwake(states[0], p);
    } else {
      var s, a := states[k - 1], steps[k - 1];
      SameSlots(states, steps, k - 1);
      RunInv(states, steps, k - 1);
      FactsOf(s, a, p);
      NextAt(s, a, p);
      SettlingStep(s, a, p);
      if s.procs[p].killed {
        KilledTooLate(states, steps, k - 1, p);
        var i: nat :| TooLate(states, steps, i, k - 1, p);
        assert TooLate(states, steps, i, k, p);
      } else {
        assert TooLate(states, steps, k - 1, k, p);
      }
    }
  }

  lemma BootAwake(s: State, p: nat)
    requires Boot(s) && p < |s.procs|
    ensures !Settling(s.procs[p].pc) && !s.procs[p].killed && s.procs[p].state != SLEEPING
  {
  }

  lemma FactsOf(s: State, a: Action, p: nat)
    requires Inv(s) && Enabled(s, a) && p < |s.procs|
    ensures Coherent(s, p) && Coherent(s, a.p) && ForkOk(s, a.p, p) && s.init < |s.procs| && Coherent(s, s.init)
    ensures s.procs[p].parent != Some(p)
  {
    assert Pair(s, p, p) && Pair(s, a.p, p) && Pair(s, s.init, p);
  }

  /** Two slots: init, and perhaps a child. */
  function Pair2(x: Proc, y: Proc, w: Option<nat>): State { State([x, y], w, 0) }

  function Init(state: ProcState, chan: Chan, killed: bool, pc: Pc): Proc {
    Proc(state, chan, killed, None, pc, 0, 0)
  }

  function Kid(state: ProcState, parent: Option<nat>, pc: Pc): Proc {
    Proc(state, Nothing, false, parent, pc, 0, 0)
  }

  ghost predicate Goes(s: State, a: Action, t: State) {
    Enabled(s, a) && t == Next(s, a)
  }

  lemma GoesTo(s: State, a: Action, t: State)
    requires Enabled(s, a) && |s.procs| == |t.procs| == 2 && t.init == s.init && t.waitLock == WaitLockAfter(s, a)
    requires t.procs[0] == After(s, a, 0) && t.procs[1] == After(s, a, 1)
    ensures Goes(s, a, t)
  {
    hide Enabled, After, WaitLockAfter;
    assert t.procs == Next(s, a).procs;
  }

  ghost predicate LeadsTo(states: seq<State>, steps: seq<Action>, s: State) {
    IsRun(states, steps) && states[|states| - 1] == s
  }

  lemma Go(states: seq<State>, steps: seq<Action>, s: State, a: Action, t: State)
    returns (states': seq<State>, steps': seq<Action>)
    requires LeadsTo(states, steps, s) && Goes(s, a, t)
    ensures LeadsTo(states', steps', t)
  {
    hide Next, Enabled, Boot;
    states', steps' := states + [t], steps + [a];
  }

  const S0 := Pair2(Init(RUNNABLE, Nothing, false, Out(New)), Kid(UNUSED, None, Absent), None)
  const S1 := Pair2(Init(RUNNING, Nothing, false, In(New)), Kid(UNUSED, None, Absent), None)
  const S2 := Pair2(Init(RUNNING, Nothing, false, Run), Kid(UNUSED, None, Absent), None)
  const S3 := Pair2(Init(RUNNING, Nothing, false, ForkParent(1)), Kid(USED, None, Embryo), None)
  const S4 := Pair2(Init(RUNNING, Nothing, false, ForkReady(1)), Kid(USED, Some(0), Embryo), None)
  const S5 := Pair2(Init(RUNNING, Nothing, false, Run), Kid(RUNNABLE, Some(0), Out(New)), None)
  const S6 := Pair2(Init(RUNNING, Nothing, false, WaitScan(0, false)), Kid(RUNNABLE, Some(0), Out(New)), Some(0))
  const S7 := Pair2(Init(RUNNING, Nothing, false, WaitScan(1, false)), Kid(RUNNABLE, Some(0), Out(New)), Some(0))
  const S8 := Pair2(Init(RUNNING, Nothing, false, WaitScan(2, true)), Kid(RUNNABLE, Some(0), Out(New)), Some(0))
  const S9 := Pair2(Init(RUNNING, Nothing, false, WaitSleep), Kid(RUNNABLE, Some(0), Out(New)), Some(0))
  const S10 := Pair2(Init(RUNNING, Nothing, true, WaitSleep), Kid(RUNNABLE, Some(0), Out(New)), Some(0))
  const S11 := Pair2(Init(RUNNING, Nothing, true, SleepLocked), Kid(RUNNABLE, Some(0), Out(New)), Some(0))
  const S12 := Pair2(Init(RUNNING, Nothing, true, SleepUnlocked), Kid(RUNNABLE, Some(0), Out(New)), None)
  const S13 := Pair2(Init(SLEEPING, OnProc(0), true, SwitchOut(Waiting)), Kid(RUNNABLE, Some(0), Out(New)), None)

  lemma Step0()
    ensures Goes(S0, Schedule(0), S1)
  {
    GoesTo(S0, Schedule(0), S1);
  }

  lemma Step1()
    ensures Goes(S1, Resume(0), S2)
  {
    GoesTo(S1, Resume(0), S2);
  }

  lemma Step2()
    ensures Goes(S2, ForkAlloc(0, 1), S3)
  {
    GoesTo(S2, ForkAlloc(0, 1), S3);
  }

  lemma Step3()
    ensures Goes(S3, ForkSetParent(0), S4)
  {
    GoesTo(S3, ForkSetParent(0), S4);
  }

  lemma Step4()
    ensures Goes(S4, ForkRunnable(0), S5)
  {
    GoesTo(S4, ForkRunnable(0), S5);
  }

  lemma Step5()
    ensures Goes(S5, Wait(0), S6)
  {
    GoesTo(S5, Wait(0), S6);
  }

  lemma Step6()
    ensures Goes(S6, Scan(0, true), S7)
  {
    GoesTo(S6, Scan(0, true), S7);
  }

  lemma Step7()
    ensures Goes(S7, Scan(0, true), S8)
  {
    GoesTo(S7, Scan(0, true), S8);
  }

  lemma Step8()
    ensures Goes(S8, ScanEnd(0), S9)
  {
    GoesTo(S8, ScanEnd(0), S9);
  }

  lemma Step9()
    ensures Goes(S9, Kill(0), S10)
  {
    GoesTo(S9, Kill(0), S10);
  }

  lemma Step10()
    ensures Goes(S10, SleepLock(0), S11)
  {
    GoesTo(S10, SleepLock(0), S11);
  }

  lemma Step11()
    ensures Goes(S11, SleepRelease(0), S12)
  {
    GoesTo(S11, SleepRelease(0), S12);
  }

  lemma Step12()
    ensures Goes(S12, GoToSleep(0), S13)
  {
    GoesTo(S12, GoToSleep(0), S13);
  }

  /** Such a run: init forks, finds its child alive, and is killed before it calls sleep(). */
  lemma LateKill() returns (states: seq<State>, steps: seq<Action>)
    ensures LeadsTo(states, steps, S13)
    ensures S13.procs[0].killed && SleepsOn(S13.procs[0], OnProc(0)) && S13.procs[1].state == RUNNABLE
  {
    hide Goes, LeadsTo, IsRun;
    Starts();
    states, steps := [S0], [];
    Step0();
    states, steps := Go(states, steps, S0, Schedule(0), S1);
    Step1();
    states, steps := Go(states, steps, S1, Resume(0), S2);
    Step2();
    states, steps := Go(states, steps, S2, ForkAlloc(0, 1), S3);
    Step3();
    states, steps := Go(states, steps, S3, ForkSetParent(0), S4);
    Step4();
    states, steps := Go(states, steps, S4, ForkRunnable(0), S5);
    Step5();
    states, steps := Go(states, steps, S5, Wait(0), S6);
    Step6();
    states, steps := Go(states, steps, S6, Scan(0, true), S7);
    Step7();
    states, steps := Go(states, steps, S7, Scan(0, true), S8);
    Step8();
    states, steps := Go(states, steps, S8, ScanEnd(0), S9);
    Step9();
    states, steps := Go(states, steps, S9, Kill(0), S10);
    Step10();
    states, steps := Go(states, steps, S10, SleepLock(0), S11);
    Step11();
    states, steps := Go(states, steps, S11, SleepRelease(0), S12);
    Step12();
    states, steps := Go(states, steps, S12, GoToSleep(0), S13);
  }

  lemma Starts()
    ensures LeadsTo([S0], [], S0)
  {
  }

  /* -------- sleep and wakeup -------- */

  predicate SleepsOn(x: Proc, chan: Chan) {
    x.state == SLEEPING && x.chan == chan
  }

  lemma WokenStep(s: State, a: Action, p: nat, c: nat)
    requires Enabled(s, a) && p < |s.procs|
    ensures SleepsOn(Next(s, a).procs[p], OnOther(c)) ==>
              a != WakeOther(p, c) && (SleepsOn(s.procs[p], OnOther(c)) || a == SleepOn(p, c))
  {
  }

  /** After wakeup(c) has looked at p, p does not sleep on c until it goes to sleep on it again. */
  lemma {:induction false} WakeupWakes(states: seq<State>, steps: seq<Action>, j: nat, k: nat, p: nat, c: nat)
    requires IsRun(states, steps) && j < k < |states| && steps[j] == WakeOther(p, c) && p < |states[k].procs|
    requires forall m | j < m < k :: steps[m] != SleepOn(p, c)
    ensures !SleepsOn(states[k].procs[p], OnOther(c))
    decreases k
  {
    hide Next, Enabled, Boot, SleepsOn;
    SameSlots(states, steps, k - 1);
    WokenStep(states[k - 1], steps[k - 1], p, c);
    if k > j + 1 {
      WakeupWakes(states, steps, j, k - 1, p, c);
    }
  }

  /** The step is one that should wake p: a kill, a wakeup on its channel, or the exit of a
      child, or, for init, of anyone with children. */
  predicate Wakes(s: State, a: Action, p: nat)
    requires p < |s.procs| && a.p < |s.procs|
  {
    var chan, pc := s.procs[p].chan, s.procs[a.p].pc;
    || a == Kill(p)
    || (a.WakeOther? && a.p == p && chan == OnOther(a.c))
    || (a.WakeInit? && pc.ExitWakeInit? && pc.j == p && p == s.init && chan == OnProc(p))
    || (a.WakeParent? && pc.ExitWakeParent? && pc.j == p && s.procs[a.p].parent == Some(p) && chan == OnProc(p))
  }

  lemma SleeperStep(s: State, a: Action, p: nat)
    requires Enabled(s, a) && p < |s.procs| && s.procs[p].state == SLEEPING
    requires Coherent(s, p) && Coherent(s, a.p) && ForkOk(s, a.p, p)
    ensures if Wakes(s, a, p) then After(s, a, p).state == RUNNABLE
            else SleepsOn(After(s, a, p), s.procs[p].chan)
  {
  }

  /** A sleeper goes on sleeping, on its channel, until a step that should wake it. */
  lemma {:induction false} SleepsUntilWoken(states: seq<State>, steps: seq<Action>, j: nat, k: nat, p: nat)
    requires IsRun(states, steps) && j <= k < |states| && p < |states[j].procs| && states[j].procs[p].state == SLEEPING
    ensures |states[k].procs| == |states[j].procs|
    ensures || SleepsOn(states[k].procs[p], states[j].procs[p].chan)
            || exists m: nat :: j <= m < k && WokenAt(states, steps, m, p)
    decreases k
  {
    hide Next, Enabled, Boot, Wakes, SleepsOn, Inv, Coherent, ForkOk;
    SlotsFrom(states, steps, j, k);
    if j == k {
      AlreadySleeps(states[j].procs[p]);
    } else {
      SlotsFrom(states, steps, j, k - 1);
      SleepsUntilWoken(states, steps, j, k - 1, p);
      var s, a := states[k - 1], steps[k - 1];
      SameSlots(states, steps, k - 1);
      if SleepsOn(s.procs[p], states[j].procs[p].chan) {
        RunInv(states, steps, k - 1);
        FactsOf(s, a, p);
        NextAt(s, a, p);
        AsleepOn(s.procs[p], states[j].procs[p].chan);
        SleeperStep(s, a, p);
        if Wakes(s, a, p) {
          assert WokenAt(states, steps, k - 1, p);
        }
      } else {
        var m: nat :| j <= m < k - 1 && WokenAt(states, steps, m, p);
        assert j <= m < k;
      }
    }
  }

  ghost predicate WokenAt(states: seq<State>, steps: seq<Action>, m: nat, p: nat) {
    && m < |steps| && m < |states| && p < |states[m].procs| && steps[m].p < |states[m].procs|
    && Wakes(states[m], steps[m], p)
  }

  lemma AlreadySleeps(x: Proc)
    requires x.state == SLEEPING
    ensures SleepsOn(x, x.chan)
  {
  }

  lemma AsleepOn(x: Proc, chan: Chan)
    requires SleepsOn(x, chan)
    ensures x.state == SLEEPING && x.chan == chan
  {
  }

  /* -------- fork and exit -------- */

  /** fork makes a process that can run, whose parent is the one that forked. */
  lemma ForkMakesChild(states: seq<State>, steps: seq<Action>, k: nat, p: nat)
    requires IsRun(states, steps) && k < |steps| && steps[k] == ForkRunnable(p)
    ensures p < |states[k].procs| == |states[k + 1].procs| && states[k].procs[p].pc.ForkReady?
    ensures var np := states[k].procs[p].pc.np;
            && np < |states[k].procs| && states[k].procs[np].pc == Embryo
            && states[k + 1].procs[np].state == RUNNABLE && states[k + 1].procs[np].pc == Out(New)
            && states[k + 1].procs[np].parent == Some(p) && states[k + 1].procs[p].pc == Run
  {
    hide Boot;
    RunInv(states, steps, k);
    SameSlots(states, steps, k);
    var np := states[k].procs[p].pc.np;
    assert Pair(states[k], p, np);
  }

  /** Every process that is made and not reaped has a parent, except init. */
  lemma NoneLost(states: seq<State>, steps: seq<Action>, k: nat, x: nat)
    requires IsRun(states, steps) && k < |states| && x < |states[k].procs| && x != states[k].init
    requires states[k].procs[x].state !in {UNUSED, USED}
    ensures states[k].procs[x].parent.Some?
  {
    RunInv(states, steps, k);
    assert Pair(states[k], x, x);
  }

  /** While p is in exit() the children it had are its own or, once passed on, init's, and
      nobody else's parent changes. */
  ghost predicate PassedTo(was: State, now: State, p: nat, c: nat)
    requires p < |was.procs| == |now.procs| && c < |was.procs|
  {
    now.procs[c].parent ==
    if was.procs[c].parent == Some(p) && c < Passed(now.procs[p].pc, |now.procs|) then Some(now.init)
    else was.procs[c].parent
  }

  lemma PassedToStep(was: State, s: State, a: Action, p: nat, c: nat)
    requires p < |was.procs| == |s.procs| && c < |s.procs| && PassedTo(was, s, p, c) && Enabled(s, a)
    requires Exiting(s.procs[p].pc) && !s.procs[p].pc.ExitZombie? && a != BecomeZombie(p) && p != s.init
    requires s.procs[p].parent != Some(p)
    requires Coherent(s, p) && Coherent(s, a.p) && ForkOk(s, a.p, p)
    ensures Next(s, a).init == s.init && Exiting(Next(s, a).procs[p].pc) && !Next(s, a).procs[p].pc.ExitZombie?
    ensures PassedTo(was, Next(s, a), p, c)
  {
    hide Next;
    NextAt(s, a, p);
    NextAt(s, a, c);
    ParentAt(s, a, c);
  }

  /** exit: from the step that starts it to the one that makes it a ZOMBIE, exactly its
      children are passed to init. */
  lemma {:induction false} ExitPassesOn(states: seq<State>, steps: seq<Action>, j: nat, k: nat, p: nat, c: nat)
    requires IsRun(states, steps) && j < k < |states| && steps[j] == Exit(p) && c < |states[j].procs|
    requires forall m | j < m < k :: steps[m] != BecomeZombie(p)
    ensures p < |states[j].procs| == |states[k].procs| && states[k].init == states[j].init != p
    ensures Exiting(states[k].procs[p].pc) && !states[k].procs[p].pc.ExitZombie?
    ensures PassedTo(states[j], states[k], p, c)
    ensures k < |steps| && steps[k] == BecomeZombie(p) ==>
              states[k].procs[c].parent ==
              if states[j].procs[c].parent == Some(p) then Some(states[j].init) else states[j].procs[c].parent
    decreases k
  {
    hide Next, Boot, Inv, Coherent, ForkOk, PassedTo;
    SlotsFrom(states, steps, j, k);
    SameSlots(states, steps, k - 1);
    if k == j + 1 {
      ExitStarts(states[j], p, c);
    } else {
      ExitPassesOn(states, steps, j, k - 1, p, c);
      RunInv(states, steps, k - 1);
      FactsOf(states[k - 1], steps[k - 1], p);
      PassedToStep(states[j], states[k - 1], steps[k - 1], p, c);
    }
    if k < |steps| && steps[k] == BecomeZombie(p) {
      SameSlots(states, steps, k);
      AllPassed(states[j], states[k], p, c);
    }
  }

  lemma ExitStarts(s: State, p: nat, c: nat)
    requires Enabled(s, Exit(p)) && c < |s.procs|
    ensures Exiting(Next(s, Exit(p)).procs[p].pc) && !Next(s, Exit(p)).procs[p].pc.ExitZombie? && p != s.init
    ensures PassedTo(s, Next(s, Exit(p)), p, c)
  {
  }

  lemma AllPassed(was: State, s: State, p: nat, c: nat)
    requires p < |was.procs| == |s.procs| && c < |s.procs| && PassedTo(was, s, p, c) && Enabled(s, BecomeZombie(p))
    ensures s.procs[c].parent == if was.procs[c].parent == Some(p) then Some(s.init) else was.procs[c].parent
  {
  }

  /** A ZOMBIE stays one until it is reaped. */
  lemma {:induction false} ZombieUntilReaped(states: seq<State>, steps: seq<Action>, j: nat, k: nat, c: nat)
    requires IsRun(states, steps) && j <= k < |states| && c < |states[j].procs| && states[j].procs[c].state == ZOMBIE
    ensures |states[k].procs| == |states[j].procs| && states[k].procs[c].exits >= states[j].procs[c].exits
    ensures states[k].procs[c].state == ZOMBIE || states[k].procs[c].reaps > states[j].procs[c].reaps
    decreases k
  {
    hide Next, Enabled, Boot, Inv;
    SlotsFrom(states, steps, j, k);
    CountedAt(states, steps, j, c);
    CountedAt(states, steps, k, c);
    if k > j {
      ZombieUntilReaped(states, steps, j, k - 1, c);
      SameSlots(states, steps, k - 1);
      ExitsStep(states[k - 1], steps[k - 1], c);
    }
  }

  lemma CountedAt(states: seq<State>, steps: seq<Action>, k: nat, c: nat)
    requires IsRun(states, steps) && k < |states| && c < |states[k].procs|
    ensures Counted(states[k].procs[c])
  {
    hide Boot;
    RunInv(states, steps, k);
    assert Pair(states[k], c, c);
  }

  lemma ExitsStep(s: State, a: Action, c: nat)
    requires Enabled(s, a) && c < |s.procs|
    ensures Next(s, a).procs[c].exits >= s.procs[c].exits
  {
  }

  /** wait() that comes to a ZOMBIE child ends there.  The slot is free again exactly if the
      status could be copied out, and otherwise the child is as it was. */
  lemma WaitTakesChild(states: seq<State>, steps: seq<Action>, k: nat, p: nat, copied: bool, c: nat)
    requires IsRun(states, steps) && k < |steps| && steps[k] == Scan(p, copied)
    requires c < |states[k].procs| && states[k].procs[c].parent == Some(p) && states[k].procs[c].state == ZOMBIE
    ensures p < |states[k].procs| == |states[k + 1].procs| && states[k].procs[p].pc.WaitScan?
    ensures var pc, now := states[k].procs[p].pc, states[k + 1];
            if pc.i == c then
              && now.procs[p].pc == Run && now.waitLock == None
              && (copied ==> now.procs[c].state == UNUSED && now.procs[c].parent == None && !now.procs[c].killed)
              && (!copied ==> now.procs[c] == states[k].procs[c])
            else now.procs[c] == states[k].procs[c]
  {
    hide Boot, Inv;
    SameSlots(states, steps, k);
    RunInv(states, steps, k);
    FactsOf(states[k], steps[k], c);
    FactsOf(states[k], steps[k], p);
  }

  /* -------- switching -------- */

  predicate Away(pc: Pc, why: Why) {
    pc == SwitchOut(why) || pc == Out(why) || pc == In(why)
  }

  lemma AwayStep(s: State, a: Action, p: nat, why: Why)
    requires Enabled(s, a) && p < |s.procs| && Coherent(s, p) && Coherent(s, a.p) && ForkOk(s, a.p, p)
    requires Away(s.procs[p].pc, why) && why != Exited && a != Resume(p)
    ensures Away(After(s, a, p).pc, why)
  {
    hide OnChan;
  }

  /** The step takes p off its CPU, and this is where it goes on. */
  predicate Leaves(s: State, a: Action, p: nat, to: Pc) {
    && p < |s.procs| && a.p == p && (a.Yield? || a.GoToSleep? || a.SleepOn?)
    && to == if a.Yield? then s.procs[p].pc else if a.GoToSleep? then WaitAgain else Run
  }

  function Reason(a: Action, to: Pc): Why {
    if a.Yield? then Yielded(to) else if a.GoToSleep? then Waiting else Slept
  }

  lemma LeaveStep(s: State, a: Action, p: nat, to: Pc)
    requires Enabled(s, a) && Leaves(s, a, p, to)
    ensures Away(Next(s, a).procs[p].pc, Reason(a, to))
  {
  }

  lemma ReturnStep(s: State, p: nat, a: Action, to: Pc)
    requires Enabled(s, Resume(p)) && Away(s.procs[p].pc, Reason(a, to))
    requires a.Yield? || (a.GoToSleep? && to == WaitAgain) || (a.SleepOn? && to == Run)
    ensures Next(s, Resume(p)).procs[p].pc == to
  {
  }

  /** A process that yields or goes to sleep does nothing until it is switched in again, and
      then goes on where it was: after the yield, after sleep(), or in wait(). */
  lemma {:induction false} ComesBack(states: seq<State>, steps: seq<Action>, j: nat, k: nat, p: nat, to: Pc)
    requires IsRun(states, steps) && j < k < |states| && Leaves(states[j], steps[j], p, to)
    requires forall m | j < m < k :: steps[m] != Resume(p)
    ensures |states[k].procs| == |states[j].procs| && Away(states[k].procs[p].pc, Reason(steps[j], to))
    ensures k < |steps| && steps[k] == Resume(p) ==>
              |states[k + 1].procs| == |states[k].procs| && states[k + 1].procs[p].pc == to
    decreases k
  {
    hide Next, After, Enabled, Boot, Inv, Coherent, ForkOk, Away;
    SlotsFrom(states, steps, j, k);
    SameSlots(states, steps, k - 1);
    if k == j + 1 {
      LeaveStep(states[j], steps[j], p, to);
    } else {
      ComesBack(states, steps, j, k - 1, p, to);
      RunInv(states, steps, k - 1);
      FactsOf(states[k - 1], steps[k - 1], p);
      NextAt(states[k - 1], steps[k - 1], p);
      AwayStep(states[k - 1], steps[k - 1], p, Reason(steps[j], to));
    }
    if k < |steps| && steps[k] == Resume(p) {
      SameSlots(states, steps, k);
      ReturnStep(states[k], p, steps[j], to);
    }
  }
}
