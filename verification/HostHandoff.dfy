/**
 How the emulation thread hands the session lock to the threads of the host. Every statement that
 takes a lock, touches the waiter count or waits on the condition variable is one step; any thread
 may take the next one. The emulation thread, the worker, also locks the session the way a host
 does, for its audio query between two quanta.
 */
module HostHandoff {
  import opened Bytes

  /**
   Where a thread stands in a call that locks the session; `timed` tells whether it waits for a
   limited time only, and `got` whether it holds the lock.
   */
  datatype HostPc =
    | Outside
    | Registered(timed: bool)              // counted, waiting for the session lock
    | Acquired(timed: bool, got: bool)     // has it, or has given up waiting
    | Withdrawing(timed: bool, got: bool)  // holds the wait lock, still counted
    | Withdrew(timed: bool, got: bool)     // holds the wait lock, no longer counted
    | Notifying(timed: bool, got: bool)    // released the wait lock, still has to notify
    | Inside(timed: bool, got: bool)       // uses the machine
  {
    predicate Counted() { Registered? || Acquired? || Withdrawing? }

    predicate HoldsSession() { (Acquired? || Withdrawing? || Withdrew? || Notifying? || Inside?) && got }

    predicate HoldsWait() { Withdrawing? || Withdrew? }

    predicate OwesNotify() { Withdrew? || Notifying? }

    /** Only a timed call goes on without the lock. */
    predicate Settled() { Outside? || Registered? || timed || got }
  }

  datatype WorkerPc =
    | Idle
    | WantRun      // waits for the session lock
    | Running      // a quantum, under the session lock
    | Loading      // about to look at the waiter count
    | WantWait     // saw waiters, wants the wait lock
    | Checking     // holds the wait lock, evaluates the condition
    | AboutToPark  // holds the wait lock, saw waiters
    | Parked       // blocked on the condition variable
    | Woken        // notified, wants the wait lock back
    | Returning    // holds the wait lock, saw no waiters
    | Served       // the hosts were served
    | AsHost(pc: HostPc)
  {
    predicate Serving() { Loading? || WantWait? || Checking? || AboutToPark? || Parked? || Woken? || Returning? }

    predicate HoldsWait() { Checking? || AboutToPark? || Returning? || (AsHost? && pc.HoldsWait()) }

    predicate HoldsSession() { Running? || (AsHost? && pc.HoldsSession()) }
  }

  datatype Thread = Worker | Host(i: nat)

  datatype Lock = Free | Held(holder: Thread)

  datatype State = State(waiters: int, session: Lock, waitLock: Lock, worker: WorkerPc, hosts: seq<HostPc>)

  predicate Exists(s: State, t: Thread) { t == Worker || t.i < |s.hosts| }

  function Pc(s: State, t: Thread): HostPc
    requires Exists(s, t)
  {
    match t
    case Worker => if s.worker.AsHost? then s.worker.pc else Outside
    case Host(i) => s.hosts[i]
  }

  /** The worker leaves its role as a host when it is outside again. */
  function Moved(s: State, t: Thread, pc: HostPc): State
    requires Exists(s, t)
  {
    match t
    case Worker => s.(worker := if pc == Outside then Idle else AsHost(pc))
    case Host(i) => s.(hosts := s.hosts[i := pc])
  }

  datatype Action =
    | Arrive(i: nat, timed: bool)
    | LockSession(t: Thread)
    | GiveUp(t: Thread)
    | LockWait(t: Thread)
    | Withdraw(t: Thread)
    | UnlockWait(t: Thread)
    | Notify(t: Thread)
    | Leave(t: Thread)
    | Start
    | Run
    | Stop
    | Load
    | LockCheck
    | Check
    | Park
    | Wake
    | Return
    | QueryAudio

  predicate Enabled(s: State, a: Action)
  {
    match a
    case Arrive(i, _) => i < |s.hosts| && s.hosts[i] == Outside
    case LockSession(t) => Exists(s, t) && Pc(s, t).Registered? && s.session == Free
    case GiveUp(t) => Exists(s, t) && Pc(s, t) == Registered(true)
    case LockWait(t) => Exists(s, t) && Pc(s, t).Acquired? && s.waitLock == Free
    case Withdraw(t) => Exists(s, t) && Pc(s, t).Withdrawing?
    case UnlockWait(t) => Exists(s, t) && Pc(s, t).Withdrew?
    case Notify(t) => Exists(s, t) && Pc(s, t).Notifying?
    case Leave(t) => Exists(s, t) && Pc(s, t).Inside?
    case Start => s.worker == Idle
    case Run => s.worker == WantRun && s.session == Free
    case Stop => s.worker == Running
    case Load => s.worker == Loading
    case LockCheck => (s.worker == WantWait || s.worker == Woken) && s.waitLock == Free
    case Check => s.worker == Checking
    case Park => s.worker == AboutToPark
    case Wake => s.worker == Parked
    case Return => s.worker == Returning
    case QueryAudio => s.worker == Served
  }

  function Next(s: State, a: Action): State
    requires Enabled(s, a)
  {
    match a
    case Arrive(i, timed) => Moved(s, Host(i), Registered(timed)).(waiters := s.waiters + 1)
    case LockSession(t) => Moved(s, t, Acquired(Pc(s, t).timed, true)).(session := Held(t))
    case GiveUp(t) => Moved(s, t, Acquired(Pc(s, t).timed, false))
    case LockWait(t) => Moved(s, t, Withdrawing(Pc(s, t).timed, Pc(s, t).got)).(waitLock := Held(t))
    case Withdraw(t) => Moved(s, t, Withdrew(Pc(s, t).timed, Pc(s, t).got)).(waiters := s.waiters - 1)
    case UnlockWait(t) => Moved(s, t, Notifying(Pc(s, t).timed, Pc(s, t).got)).(waitLock := Free)
    case Notify(t) =>
      var moved := Moved(s, t, Inside(Pc(s, t).timed, Pc(s, t).got));
      if moved.worker == Parked then moved.(worker := Woken) else moved
    case Leave(t) => Moved(s, t, Outside).(session := if Pc(s, t).got then Free else s.session)
    case Start => s.(worker := WantRun)
    case Run => s.(worker := Running, session := Held(Worker))
    case Stop => s.(worker := Loading, session := Free)
    case Load => s.(worker := if s.waiters == 0 then Served else WantWait)
    case LockCheck => s.(worker := Checking, waitLock := Held(Worker))
    case Check => s.(worker := if s.waiters == 0 then Returning else AboutToPark)
    case Park => s.(worker := Parked, waitLock := Free)
    case Wake => s.(worker := Woken)
    case Return => s.(worker := Served, waitLock := Free)
    case QueryAudio => s.(worker := AsHost(Registered(false)), waiters := s.waiters + 1)
  }

  /** Any number of hosts, none of them in a call. */
  function Initial(count: nat): State
  {
    State(0, Free, Free, Idle, seq(count, _ => Outside))
  }

  ghost predicate IsRun(s: State, actions: seq<Action>)
    decreases |actions|
  {
    actions == [] || (Enabled(s, actions[0]) && IsRun(Next(s, actions[0]), actions[1..]))
  }

  ghost function After(s: State, actions: seq<Action>): State
    requires IsRun(s, actions)
    decreases |actions|
  {
    if actions == [] then s else After(Next(s, actions[0]), actions[1..])
  }

  // ---------- the invariant ----------

  function One(b: bool): nat { if b then 1 else 0 }

  function Counted(hosts: seq<HostPc>): nat
  {
    if hosts == [] then 0 else One(hosts[0].Counted()) + Counted(hosts[1..])
  }

  /** The count is the number of threads between registering and withdrawing. */
  predicate CountHolds(s: State)
  {
    s.waiters == Counted(s.hosts) + One(Pc(s, Worker).Counted())
  }

  predicate HoldsSession(s: State, t: Thread)
    requires Exists(s, t)
  {
    match t case Worker => s.worker.HoldsSession() case Host(i) => s.hosts[i].HoldsSession()
  }

  predicate HoldsWait(s: State, t: Thread)
    requires Exists(s, t)
  {
    match t case Worker => s.worker.HoldsWait() case Host(i) => s.hosts[i].HoldsWait()
  }

  /** Each lock is held by exactly the thread that is in a section it protects. */
  ghost predicate LocksHold(s: State)
  {
    && (s.session.Held? ==> Exists(s, s.session.holder))
    && (s.waitLock.Held? ==> Exists(s, s.waitLock.holder))
    && (forall t :: Exists(s, t) ==> (HoldsSession(s, t) <==> s.session == Held(t)))
    && (forall t :: Exists(s, t) ==> (HoldsWait(s, t) <==> s.waitLock == Held(t)))
  }

  ghost predicate NotifyOwed(s: State)
  {
    exists i :: 0 <= i < |s.hosts| && s.hosts[i].OwesNotify()
  }

  /** No lost wake-up: a parked worker has a waiter to wait for, or a notify is still to come. */
  ghost predicate ParkedHolds(s: State)
  {
    && (s.worker == Parked ==> s.waiters > 0 || NotifyOwed(s))
    && (s.worker == AboutToPark ==> s.waiters > 0)
  }

  /** A call that does not give up never goes on without the session lock. */
  ghost predicate CallsSettled(s: State)
  {
    forall t :: Exists(s, t) ==> Pc(s, t).Settled()
  }

  ghost predicate Inv(s: State)
  {
    CountHolds(s) && LocksHold(s) && ParkedHolds(s) && CallsSettled(s) && s.worker != AsHost(Outside)
  }

  // ---------- counting ----------

  lemma {:induction false} CountMoves(hosts: seq<HostPc>, i: nat, pc: HostPc)
    requires i < |hosts|
    ensures Counted(hosts[i := pc]) == Counted(hosts) - One(hosts[i].Counted()) + One(pc.Counted())
  {
    if i == 0 {
      assert hosts[i := pc][1..] == hosts[1..];
    } else {
      assert hosts[i := pc][1..] == hosts[1..][i - 1 := pc];
      CountMoves(hosts[1..], i - 1, pc);
    }
  }

  lemma {:induction false} CountIsZero(hosts: seq<HostPc>)
    ensures Counted(hosts) == 0 <==> forall i :: 0 <= i < |hosts| ==> !hosts[i].Counted()
  {
    if hosts != [] {
      CountIsZero(hosts[1..]);
      assert forall i :: 0 < i < |hosts| ==> hosts[i] == hosts[1..][i - 1];
      assert forall i :: 0 <= i < |hosts[1..]| ==> hosts[1..][i] == hosts[i + 1];
    }
  }

  lemma {:induction false} NobodyCounted(count: nat)
    ensures Counted(seq(count, _ => Outside)) == 0
  {
    CountIsZero(seq(count, _ => Outside));
  }

  lemma ThreadCount(s: State, t: Thread, pc: HostPc)
    requires Exists(s, t) && CountHolds(s) && (t == Worker ==> s.worker.AsHost?)
    ensures var moved := Moved(s, t, pc);
            Counted(moved.hosts) + One(Pc(moved, Worker).Counted())
            == s.waiters - One(Pc(s, t).Counted()) + One(pc.Counted())
  {
    if t.Host? { CountMoves(s.hosts, t.i, pc); }
  }

  // ---------- every step keeps it ----------

  lemma InitialHolds(count: nat)
    ensures Inv(Initial(count))
  {
    NobodyCounted(count);
  }

  lemma StepKeepsCount(s: State, a: Action)
    requires Inv(s) && Enabled(s, a)
    ensures CountHolds(Next(s, a))
  {
    hide Counted, LocksHold, ParkedHolds;
    match a
    case Arrive(i, timed) => ThreadCount(s, Host(i), Registered(timed));
    case LockSession(t) => ThreadCount(s, t, Acquired(Pc(s, t).timed, true));
    case GiveUp(t) => ThreadCount(s, t, Acquired(Pc(s, t).timed, false));
    case LockWait(t) => ThreadCount(s, t, Withdrawing(Pc(s, t).timed, Pc(s, t).got));
    case Withdraw(t) => ThreadCount(s, t, Withdrew(Pc(s, t).timed, Pc(s, t).got));
    case UnlockWait(t) => ThreadCount(s, t, Notifying(Pc(s, t).timed, Pc(s, t).got));
    case Notify(t) => ThreadCount(s, t, Inside(Pc(s, t).timed, Pc(s, t).got));
    case Leave(t) => ThreadCount(s, t, Outside);
    case _ =>
  }

  /** The lock after a thread moved from a place where it held it or not to one where it does or not. */
  predicate LockFollows(before: Lock, after: Lock, t: Thread, held: bool, holds: bool)
  {
    if held == holds then after == before
    else if holds then before == Free && after == Held(t)
    else after == Free
  }

  lemma HostMoveKeepsLocks(s: State, i: nat, s': State)
    requires LocksHold(s) && i < |s.hosts| && |s'.hosts| == |s.hosts| && s'.hosts == s.hosts[i := s'.hosts[i]]
    requires s'.worker.HoldsSession() == s.worker.HoldsSession() && s'.worker.HoldsWait() == s.worker.HoldsWait()
    requires LockFollows(s.session, s'.session, Host(i), s.hosts[i].HoldsSession(), s'.hosts[i].HoldsSession())
    requires LockFollows(s.waitLock, s'.waitLock, Host(i), s.hosts[i].HoldsWait(), s'.hosts[i].HoldsWait())
    ensures LocksHold(s')
  {
    assert HoldsSession(s, Host(i)) <==> s.session == Held(Host(i));
    assert HoldsWait(s, Host(i)) <==> s.waitLock == Held(Host(i));
    forall t | Exists(s', t)
      ensures HoldsSession(s', t) <==> s'.session == Held(t)
      ensures HoldsWait(s', t) <==> s'.waitLock == Held(t)
    {
      assert HoldsSession(s, t) <==> s.session == Held(t);
      assert HoldsWait(s, t) <==> s.waitLock == Held(t);
    }
  }

  lemma WorkerMoveKeepsLocks(s: State, s': State)
    requires LocksHold(s) && s'.hosts == s.hosts
    requires LockFollows(s.session, s'.session, Worker, s.worker.HoldsSession(), s'.worker.HoldsSession())
    requires LockFollows(s.waitLock, s'.waitLock, Worker, s.worker.HoldsWait(), s'.worker.HoldsWait())
    ensures LocksHold(s')
  {
    assert HoldsSession(s, Worker) <==> s.session == Held(Worker);
    assert HoldsWait(s, Worker) <==> s.waitLock == Held(Worker);
    forall t | Exists(s', t)
      ensures HoldsSession(s', t) <==> s'.session == Held(t)
      ensures HoldsWait(s', t) <==> s'.waitLock == Held(t)
    {
      assert HoldsSession(s, t) <==> s.session == Held(t);
      assert HoldsWait(s, t) <==> s.waitLock == Held(t);
    }
  }

  /** The thread that takes a step, if it acts as a host. */
  function Actor(a: Action): Option<Thread>
  {
    match a
    case Arrive(i, _) => Some(Host(i))
    case LockSession(t) => Some(t)
    case GiveUp(t) => Some(t)
    case LockWait(t) => Some(t)
    case Withdraw(t) => Some(t)
    case UnlockWait(t) => Some(t)
    case Notify(t) => Some(t)
    case Leave(t) => Some(t)
    case _ => None
  }

  lemma StepKeepsLocks(s: State, a: Action)
    requires Inv(s) && Enabled(s, a)
    ensures LocksHold(Next(s, a))
  {
    hide LocksHold, CountHolds, ParkedHolds;
    if Actor(a).Some? && Actor(a).value.Host? {
      HostStepFollows(s, a, Actor(a).value.i);
      HostMoveKeepsLocks(s, Actor(a).value.i, Next(s, a));
    } else {
      WorkerStepFollows(s, a);
      WorkerMoveKeepsLocks(s, Next(s, a));
    }
  }

  lemma HostStepFollows(s: State, a: Action, i: nat)
    requires Enabled(s, a) && Actor(a) == Some(Host(i))
    ensures var s' := Next(s, a);
            && i < |s.hosts| == |s'.hosts| && s'.hosts == s.hosts[i := s'.hosts[i]]
            && s'.worker.HoldsSession() == s.worker.HoldsSession() && s'.worker.HoldsWait() == s.worker.HoldsWait()
            && LockFollows(s.session, s'.session, Host(i), s.hosts[i].HoldsSession(), s'.hosts[i].HoldsSession())
            && LockFollows(s.waitLock, s'.waitLock, Host(i), s.hosts[i].HoldsWait(), s'.hosts[i].HoldsWait())
  {
  }

  lemma WorkerStepFollows(s: State, a: Action)
    requires Enabled(s, a) && (Actor(a) == None || Actor(a) == Some(Worker)) && s.worker != AsHost(Outside)
    ensures var s' := Next(s, a);
            && s'.hosts == s.hosts
            && LockFollows(s.session, s'.session, Worker, s.worker.HoldsSession(), s'.worker.HoldsSession())
            && LockFollows(s.waitLock, s'.waitLock, Worker, s.worker.HoldsWait(), s'.worker.HoldsWait())
  {
  }

  lemma StepKeepsParked(s: State, a: Action)
    requires Inv(s) && Enabled(s, a)
    ensures ParkedHolds(Next(s, a))
  {
    hide Counted, CountHolds;
    var s' := Next(s, a);
    assert HoldsWait(s, Worker) <==> s.waitLock == Held(Worker);
    if a.Withdraw? && a.t.Host? {
      assert HoldsWait(s, a.t);
      assert s'.hosts[a.t.i].OwesNotify();
    } else if a.UnlockWait? && a.t.Host? {
      assert s'.hosts[a.t.i].OwesNotify();
    } else if s.worker == Parked && s'.worker == Parked && NotifyOwed(s) {
      var i :| 0 <= i < |s.hosts| && s.hosts[i].OwesNotify();
      assert s'.hosts[i].OwesNotify();
    }
    if a == Check { assert s.waiters >= 0 by { CountIsNatural(s); } }
  }

  lemma StepKeepsSettled(s: State, a: Action)
    requires CallsSettled(s) && Enabled(s, a)
    ensures CallsSettled(Next(s, a))
  {
    var s' := Next(s, a);
    forall t | Exists(s', t)
      ensures Pc(s', t).Settled()
    {
      assert Pc(s, t).Settled();
    }
  }

  lemma CountIsNatural(s: State)
    requires CountHolds(s)
    ensures s.waiters >= 0
  {}

  lemma NobodyRegistered(s: State)
    requires CountHolds(s) && s.waiters == 0
    ensures forall t :: Exists(s, t) ==> !Pc(s, t).Registered?
  {
    CountIsZero(s.hosts);
  }

  lemma StepKeepsInv(s: State, a: Action)
    requires Inv(s) && Enabled(s, a)
    ensures Inv(Next(s, a))
  {
    StepKeepsCount(s, a);
    StepKeepsLocks(s, a);
    StepKeepsParked(s, a);
    StepKeepsSettled(s, a);
    hide CountHolds, LocksHold, ParkedHolds, CallsSettled;
  }

  /** No interleaving of any number of hosts leads out of the invariant. */
  lemma {:induction false} RunKeepsInv(s: State, actions: seq<Action>)
    requires Inv(s) && IsRun(s, actions)
    ensures Inv(After(s, actions))
    decreases |actions|
  {
    hide Inv, Next, Enabled;
    if actions != [] {
      StepKeepsInv(s, actions[0]);
      RunKeepsInv(Next(s, actions[0]), actions[1..]);
    }
  }

  /** So it holds in every state that is reachable at all. */
  lemma EveryRunIsSafe(count: nat, actions: seq<Action>)
    requires IsRun(Initial(count), actions)
    ensures Inv(After(Initial(count), actions))
  {
    InitialHolds(count);
    RunKeepsInv(Initial(count), actions);
  }

  // ---------- who touches the machine ----------

  predicate Touches(s: State, t: Thread)
    requires Exists(s, t)
  {
    (t == Worker && s.worker == Running) || Pc(s, t).Inside?
  }

  /** Apart from a timed call that gave up waiting, only the holder of the session lock touches the machine. */
  lemma OnlyTheHolderTouches(s: State, t: Thread, u: Thread)
    requires Inv(s) && Exists(s, t) && Exists(s, u) && Touches(s, t) && Touches(s, u)
    ensures s.session == Held(t) || Pc(s, t) == Inside(true, false)
    ensures t != u ==> Pc(s, t) == Inside(true, false) || Pc(s, u) == Inside(true, false)
  {
    assert HoldsSession(s, t) <==> s.session == Held(t);
    assert HoldsSession(s, u) <==> s.session == Held(u);
    assert Pc(s, t).Settled() && Pc(s, u).Settled();
  }

  /** Whether the call that `t` began last is a timed one; the audio query is not. */
  function BeganTimed(before: bool, actions: seq<Action>, t: Thread): bool
    decreases |actions|
  {
    if actions == [] then before else BeganTimed(NowTimed(before, actions[0], t), actions[1..], t)
  }

  function NowTimed(before: bool, a: Action, t: Thread): bool
  {
    if a.Arrive? && t == Host(a.i) then a.timed else if a == QueryAudio && t == Worker then false else before
  }

  predicate IsKind(pc: HostPc, timed: bool) { pc == Outside || pc.timed == timed }

  lemma StepKeepsKind(s: State, a: Action, t: Thread, before: bool)
    requires Enabled(s, a) && Exists(s, t) && IsKind(Pc(s, t), before)
    ensures Exists(Next(s, a), t) && IsKind(Pc(Next(s, a), t), NowTimed(before, a, t))
  {}

  /** A call stays what it began as until it is left. */
  lemma {:induction false} CallKeepsItsKind(s: State, actions: seq<Action>, t: Thread, before: bool)
    requires IsRun(s, actions) && Exists(s, t) && IsKind(Pc(s, t), before)
    ensures Exists(After(s, actions), t) && IsKind(Pc(After(s, actions), t), BeganTimed(before, actions, t))
    decreases |actions|
  {
    hide Exists, Pc, Next, Enabled, NowTimed, IsKind;
    if actions != [] {
      StepKeepsKind(s, actions[0], t, before);
      CallKeepsItsKind(Next(s, actions[0]), actions[1..], t, NowTimed(before, actions[0], t));
    }
  }

  /**
   On every run, a call that was begun without a time limit uses the machine under the session lock
   only, and so does a quantum.
   */
  lemma UntimedCallsAreLocked(count: nat, actions: seq<Action>, t: Thread)
    requires IsRun(Initial(count), actions) && Exists(Initial(count), t)
    ensures Exists(After(Initial(count), actions), t)
    ensures var s := After(Initial(count), actions);
            Touches(s, t) && (Pc(s, t).Inside? ==> !BeganTimed(true, actions, t)) ==> s.session == Held(t)
  {
    EveryRunIsSafe(count, actions);
    CallKeepsItsKind(Initial(count), actions, t, true);
    var s := After(Initial(count), actions);
    hide CountHolds, ParkedHolds, IsRun, After;
    assert HoldsSession(s, t) <==> s.session == Held(t);
    assert Pc(s, t).Settled();
  }

  // ---------- the hand-off ----------

  predicate Serves(a: Action, t: Thread) { a == LockSession(t) || a == GiveUp(t) }

  /** A service that has not yet seen the count at zero: it can still see who registers. */
  predicate Attentive(pc: WorkerPc) { pc.Serving() && pc != Returning }

  /** The worker is in one and the same service for the first `k` steps. */
  ghost predicate ServesFor(s: State, actions: seq<Action>, k: nat)
    requires IsRun(s, actions) && k <= |actions|
    decreases k
  {
    Attentive(s.worker) && (k == 0 || ServesFor(Next(s, actions[0]), actions[1..], k - 1))
  }

  /** While a thread waits, no step but its own takes it off the list, and the service cannot end. */
  lemma WaitingIsSeen(s: State, a: Action, t: Thread)
    requires Inv(s) && Enabled(s, a) && Exists(s, t) && Attentive(s.worker) && Pc(s, t).Registered? && !Serves(a, t)
    ensures Exists(Next(s, a), t) && Attentive(Next(s, a).worker) && Pc(Next(s, a), t) == Pc(s, t)
  {
    hide LocksHold, ParkedHolds, CountHolds;
    if s.waiters == 0 { NobodyRegistered(s); }
  }

  lemma ServedWithLock(s: State, a: Action, t: Thread)
    requires Enabled(s, a) && Exists(s, t) && Pc(s, t) == Registered(false) && Serves(a, t)
    ensures a == LockSession(t)
  {}

  /**
   The hand-off: whenever a thread waits for the session lock while a service can still see it,
   registered before the service began or during it, that service does not return before the thread
   has taken the lock or, in a timed call only, given up.
   */
  lemma {:induction false} HandOff(s: State, actions: seq<Action>, t: Thread) returns (k: nat)
    requires Inv(s) && IsRun(s, actions) && Exists(s, t)
    requires Attentive(s.worker) && Pc(s, t).Registered? && !After(s, actions).worker.Serving()
    ensures k < |actions| && Serves(actions[k], t) && ServesFor(s, actions, k)
    ensures !Pc(s, t).timed ==> actions[k] == LockSession(t)
    decreases |actions|
  {
    hide Inv, Next, Enabled, Pc, Serves;
    if actions == [] {
      assert false;
    } else if Serves(actions[0], t) {
      if !Pc(s, t).timed { ServedWithLock(s, actions[0], t); }
      k := 0;
    } else {
      WaitingIsSeen(s, actions[0], t);
      StepKeepsInv(s, actions[0]);
      k := HandOff(Next(s, actions[0]), actions[1..], t);
      k := k + 1;
    }
  }

  /** In particular, nobody who waited when a quantum ended still waits when the next one begins. */
  lemma NobodyWaitsAcrossQuanta(s: State, actions: seq<Action>, t: Thread) returns (k: nat)
    requires Inv(s) && actions != [] && actions[0] == Stop && IsRun(s, actions) && Exists(s, t)
    requires Pc(s, t).Registered? && After(s, actions).worker == WantRun
    ensures 0 < k < |actions| && Serves(actions[k], t) && ServesFor(Next(s, Stop), actions[1..], k - 1)
    ensures !Pc(s, t).timed ==> actions[k] == LockSession(t)
  {
    hide CountHolds, LocksHold, ParkedHolds;
    StepKeepsInv(s, Stop);
    k := HandOff(Next(s, Stop), actions[1..], t);
    k := k + 1;
  }

  // ---------- no deadlock ----------

  /** Steps the system takes by itself: no new call, no timeout, no spurious wake-up, no new quantum. */
  predicate Progress(a: Action) { !a.Arrive? && !a.GiveUp? && !a.Wake? && !a.Start? }

  ghost predicate CanGoOn(s: State) { exists a :: Progress(a) && Enabled(s, a) }

  lemma WaitHolderGoesOn(s: State)
    requires Inv(s) && s.waitLock.Held?
    ensures CanGoOn(s)
  {
    var t := s.waitLock.holder;
    assert HoldsWait(s, t);
    if t.Host? || s.worker.AsHost? {
      assert Enabled(s, if Pc(s, t).Withdrawing? then Withdraw(t) else UnlockWait(t));
    } else {
      assert Enabled(s, if s.worker == Checking then Check else if s.worker == AboutToPark then Park else Return);
    }
  }

  lemma CallerGoesOn(s: State, t: Thread)
    requires Inv(s) && Exists(s, t) && Pc(s, t) != Outside && !Pc(s, t).Registered?
    ensures CanGoOn(s)
  {
    if Pc(s, t).Acquired? {
      if s.waitLock == Free { assert Enabled(s, LockWait(t)); } else { WaitHolderGoesOn(s); }
    } else {
      assert Enabled(s, if Pc(s, t).Withdrawing? then Withdraw(t) else if Pc(s, t).Withdrew? then UnlockWait(t)
                        else if Pc(s, t).Notifying? then Notify(t) else Leave(t));
    }
  }

  lemma SessionHolderGoesOn(s: State)
    requires Inv(s) && s.session.Held?
    ensures CanGoOn(s)
  {
    var t := s.session.holder;
    assert HoldsSession(s, t);
    if t == Worker && s.worker == Running {
      assert Enabled(s, Stop);
    } else {
      CallerGoesOn(s, t);
    }
  }

  lemma CalledGoesOn(s: State, t: Thread)
    requires Inv(s) && Exists(s, t) && Pc(s, t) != Outside
    ensures CanGoOn(s)
  {
    if Pc(s, t).Registered? {
      if s.session == Free { assert Enabled(s, LockSession(t)); } else { SessionHolderGoesOn(s); }
    } else {
      CallerGoesOn(s, t);
    }
  }

  /** A parked worker always has someone left who will get on and wake it. */
  lemma ParkedGoesOn(s: State)
    requires Inv(s) && s.worker == Parked
    ensures CanGoOn(s)
  {
    if NotifyOwed(s) {
      var i :| 0 <= i < |s.hosts| && s.hosts[i].OwesNotify();
      CalledGoesOn(s, Host(i));
    } else {
      CountIsZero(s.hosts);
      var i :| 0 <= i < |s.hosts| && s.hosts[i].Counted();
      CalledGoesOn(s, Host(i));
    }
  }

  /** No deadlock: unless the worker is idle and no host is in a call, some thread can take a step of its own. */
  lemma NoDeadlock(s: State)
    requires Inv(s) && (s.worker != Idle || exists i :: 0 <= i < |s.hosts| && s.hosts[i] != Outside)
    ensures CanGoOn(s)
  {
    if s.worker == Idle {
      var i :| 0 <= i < |s.hosts| && s.hosts[i] != Outside;
      CalledGoesOn(s, Host(i));
    } else if s.worker.AsHost? {
      CalledGoesOn(s, Worker);
    } else if s.worker == Parked {
      ParkedGoesOn(s);
    } else if s.worker == WantRun {
      if s.session == Free { assert Enabled(s, Run); } else { SessionHolderGoesOn(s); }
    } else if s.worker == WantWait || s.worker == Woken {
      if s.waitLock == Free { assert Enabled(s, LockCheck); } else { WaitHolderGoesOn(s); }
    } else {
      assert Enabled(s, match s.worker case Running => Stop case Loading => Load case Checking => Check
                        case AboutToPark => Park case Returning => Return case _ => QueryAudio);
    }
  }

  // ---------- the service comes to an end ----------

  function HostRank(pc: HostPc): nat
  {
    match pc
    case Outside => 0
    case Registered(_) => 6
    case Acquired(_, _) => 5
    case Withdrawing(_, _) => 4
    case Withdrew(_, _) => 3
    case Notifying(_, _) => 2
    case Inside(_, _) => 1
  }

  function HostRanks(hosts: seq<HostPc>): nat
  {
    if hosts == [] then 0 else HostRank(hosts[0]) + HostRanks(hosts[1..])
  }

  function WorkerRank(pc: WorkerPc): nat
  {
    match pc
    case Loading => 6
    case WantWait => 5
    case Woken => 5
    case Checking => 4
    case AboutToPark => 3
    case Returning => 3
    case Parked => 2
    case _ => 0
  }

  /** The steps left before a service ends, at most, while nobody new arrives. */
  function Rank(s: State): nat { 8 * HostRanks(s.hosts) + WorkerRank(s.worker) }

  lemma {:induction false} RankMoves(hosts: seq<HostPc>, i: nat, pc: HostPc)
    requires i < |hosts|
    ensures HostRanks(hosts[i := pc]) == HostRanks(hosts) - HostRank(hosts[i]) + HostRank(pc)
  {
    if i == 0 {
      assert hosts[i := pc][1..] == hosts[1..];
    } else {
      assert hosts[i := pc][1..] == hosts[1..][i - 1 := pc];
      RankMoves(hosts[1..], i - 1, pc);
    }
  }

  /** Every step but an arrival and a spurious wake-up brings the end nearer. */
  lemma RankFalls(s: State, a: Action)
    requires Enabled(s, a) && s.worker.Serving() && !a.Arrive? && !a.Wake?
    ensures Rank(Next(s, a)) < Rank(s)
  {
    hide HostRanks;
    if Actor(a).Some? && Actor(a).value.Host? {
      var i := Actor(a).value.i;
      RankMoves(s.hosts, i, Next(s, a).hosts[i]);
    }
  }

  /** A service cannot go on for more steps than its rank: within that many it has returned. */
  lemma {:induction false} ServiceEnds(s: State, actions: seq<Action>) returns (k: nat)
    requires IsRun(s, actions) && s.worker.Serving() && |actions| > Rank(s)
    requires forall i :: 0 <= i < |actions| ==> !actions[i].Arrive? && !actions[i].Wake?
    ensures k <= |actions| && IsRun(s, actions[..k]) && After(s, actions[..k]).worker == Served
    decreases |actions|
  {
    hide Rank;
    var next := Next(s, actions[0]);
    RankFalls(s, actions[0]);
    if next.worker.Serving() {
      k := ServiceEnds(next, actions[1..]);
      assert actions[..k + 1][1..] == actions[1..][..k];
      k := k + 1;
    } else {
      k := 1;
      assert actions[..1][1..] == [];
    }
  }
}
