/**
 * The lock of the worker threads in pattern.c: many readers, upgraded to exclusive use one at a time.
 */
module ThreadLock {
  // A step is what one thread does between taking the mutex and giving it back, at the end of a function or in
  // pthread_cond_wait; `ok` turns false when an assert of the code fails. A signal wakes one waiter of the condition
  // variable, any one. Threads that wait in a loop may also wake by themselves; on vg_thread_wrcond, where the code
  // waits without a loop, nobody does.

  /**
   * Outside the lock functions; about to yield, having seen the stop flag; waiting for a condition variable, or woken
   * up.
   */
  datatype Pc = Running | Yielding | RdWait | RdReady | WrWait | WrReady | UpWait | UpReady

  /** vxc_lockmode, vxc_stop, and where the thread is. */
  datatype Thread = Thread(lockmode: int, stop: bool, pc: Pc)

  /** vc_threads and vc_thread_excl. */
  datatype State = State(threads: map<nat, Thread>, excl: int, ok: bool)

  /** A critical section of thread t; wr and up are the threads its signals wake, if any wait. */
  datatype Action =
    | Init(t: nat)
    | See(t: nat)
    | Yield(t: nat, up: nat)
    | Upgrade(t: nat, up: nat)
    | Resume(t: nat, up: nat)
    | Downgrade(t: nat, wr: nat, up: nat)
    | Del(t: nat, up: nat)
    | Wake(t: nat)

  ghost predicate At(s: State, t: nat, pc: Pc) {
    t in s.threads && s.threads[t].pc == pc
  }

  ghost predicate Locked(s: State, t: nat, mode: int) {
    t in s.threads && s.threads[t].lockmode == mode
  }

  // ---- Primitives

  ghost function Put(s: State, t: nat, lockmode: int, stop: bool, pc: Pc): State {
    s.(threads := s.threads[t := Thread(lockmode, stop, pc)])
  }

  ghost function Check(s: State, b: bool): State {
    s.(ok := s.ok && b)
  }

  /** pthread_cond_signal */
  ghost function Signal(s: State, from: Pc, to: Pc, wake: nat): State {
    if At(s, wake, from) then s.(threads := s.threads[wake := s.threads[wake].(pc := to)]) else s
  }

  /** pthread_cond_broadcast on vg_thread_rdcond */
  ghost function Broadcast(s: State): State {
    s.(threads := map t | t in s.threads :: if s.threads[t].pc == RdWait then s.threads[t].(pc := RdReady) else s.threads[t])
  }

  /** Whoever is to be woken up does wait, if anybody does. */
  ghost predicate Wakes(s: State, from: Pc, wake: nat) {
    (exists t :: At(s, t, from)) ==> At(s, wake, from)
  }

  // ---- The sections

  /** The loop of __vg_exec_context_yield, up to its wait or its end. */
  ghost function ReadLoop(s: State, t: nat, up: nat): State
    requires t in s.threads
  {
    var th := s.threads[t];
    if s.excl != 0 then
      if th.stop then Signal(Put(Check(s, s.excl != 0), t, th.lockmode, false, RdWait), UpWait, UpReady, up)
      else Put(s, t, th.lockmode, th.stop, RdWait)
    else
      Put(Check(s, !th.stop && th.lockmode == 0), t, 1, th.stop, Running)
  }

  ghost function YieldBody(s: State, t: nat, up: nat): State
    requires t in s.threads
  {
    ReadLoop(Put(s, t, 0, s.threads[t].stop, s.threads[t].pc), t, up)
  }

  /** The loop of the first upgrader, up to its wait or its end. The code checks the first thread it finds, this all. */
  ghost function Scan(s: State, t: nat): State
    requires t in s.threads
  {
    if exists u :: u in s.threads && s.threads[u].lockmode != 0 then
      Put(Check(s, forall u :: u in s.threads ==> s.threads[u].lockmode != 2),
          t, s.threads[t].lockmode, s.threads[t].stop, UpWait)
    else
      Put(s, t, 2, s.threads[t].stop, Running)
  }

  /** Sets the stop flag of every thread that holds the lock. */
  ghost function StopAll(s: State): State {
    Check(s, forall u :: u in s.threads ==> s.threads[u].lockmode != 2).(threads :=
      map u | u in s.threads :: if s.threads[u].lockmode != 0 then s.threads[u].(stop := true) else s.threads[u])
  }

  ghost function UpgradeBody(s: State, t: nat, up: nat): State
    requires t in s.threads
  {
    var th := s.threads[t];
    var s1 := Check(s, th.lockmode == 1).(excl := s.excl + 1);
    if s.excl != 0 then
      Signal(Put(Check(s1, th.stop), t, 0, false, WrWait), UpWait, UpReady, up)
    else
      Scan(StopAll(Put(s1, t, 0, th.stop, th.pc)), t)
  }

  ghost function ResumeBody(s: State, t: nat, up: nat): State
    requires t in s.threads
  {
    match s.threads[t].pc
    case RdReady => ReadLoop(s, t, up)
    case UpReady => Scan(s, t)
    case _ =>
      Put(Check(s, forall u :: u in s.threads ==> s.threads[u].lockmode == 0 && !s.threads[u].stop),
          t, 2, s.threads[t].stop, Running)
  }

  ghost function DowngradeBody(s: State, t: nat, wr: nat, up: nat): State
    requires t in s.threads
  {
    var th := s.threads[t];
    var s1 := Check(s, th.lockmode == 2 && !th.stop).(excl := s.excl - 1);
    if s1.excl == 0 then Broadcast(Put(s1, t, 1, th.stop, th.pc))
    else YieldBody(Signal(s1, WrWait, WrReady, wr), t, up)
  }

  ghost function DelBody(s: State, t: nat, up: nat): State
    requires t in s.threads
  {
    var th := s.threads[t];
    var s1 := Check(s, th.lockmode == 1).(threads := s.threads - {t});
    if th.stop then Signal(s1, UpWait, UpReady, up) else s1
  }

  /**
   * What the callers respect: the lock functions are called from outside, on a thread of the list, with the right lock.
   */
  ghost predicate Enabled(s: State, a: Action) {
    match a
    case Init(t) => t !in s.threads
    case See(t) => At(s, t, Running) && s.threads[t].lockmode != 2 && s.threads[t].stop
    case Yield(t, up) => At(s, t, Yielding) && Wakes(s, UpWait, up)
    case Upgrade(t, up) => At(s, t, Running) && s.threads[t].lockmode != 2 && Wakes(s, UpWait, up)
    case Resume(t, up) => t in s.threads && s.threads[t].pc in {RdReady, WrReady, UpReady} && Wakes(s, UpWait, up)
    case Downgrade(t, wr, up) => At(s, t, Running) && s.threads[t].lockmode == 2 && Wakes(s, WrWait, wr) && Wakes(s, UpWait, up)
    case Del(t, up) => At(s, t, Running) && s.threads[t].lockmode != 2 && Wakes(s, UpWait, up)
    case Wake(t) => At(s, t, RdWait) || At(s, t, UpWait)
  }

  ghost function Next(s: State, a: Action): State
    requires Enabled(s, a)
  {
    match a
    case Init(t) => YieldBody(Put(s, t, 0, false, Running), t, t)
    case See(t) => Put(s, t, s.threads[t].lockmode, s.threads[t].stop, Yielding)
    case Yield(t, up) => YieldBody(Check(s, s.threads[t].lockmode == 1), t, up)
    case Upgrade(t, up) => UpgradeBody(s, t, up)
    case Resume(t, up) => ResumeBody(s, t, up)
    case Downgrade(t, wr, up) => DowngradeBody(s, t, wr, up)
    case Del(t, up) => DelBody(s, t, up)
    case Wake(t) => Signal(Signal(s, RdWait, RdReady, t), UpWait, UpReady, t)
  }

  // ---- The invariant

  /** Has announced that it wants the exclusive lock, or has it. */
  ghost predicate Pending(s: State, t: nat) {
    t in s.threads && (s.threads[t].pc in {UpWait, UpReady, WrWait, WrReady} || s.threads[t].lockmode == 2)
  }

  /** Has the exclusive lock or is the next to get it. */
  ghost predicate Leading(s: State, t: nat) {
    t in s.threads && (s.threads[t].pc in {UpWait, UpReady, WrReady} || s.threads[t].lockmode == 2)
  }

  /** Has the exclusive lock, or will have it with no reader left to wait for. */
  ghost predicate Alone(s: State, t: nat) {
    t in s.threads && (s.threads[t].pc == WrReady || s.threads[t].lockmode == 2)
  }

  ghost function Pendings(s: State): set<nat> {
    set t | t in s.threads && Pending(s, t)
  }

  /** One thread, given what vc_thread_excl is. */
  ghost predicate Consistent(th: Thread, excl: int) {
    && (match th.pc
        case Running => th.lockmode in {1, 2}
        case Yielding => th.lockmode == 1 && th.stop
        case _ => th.lockmode == 0)
    && (th.stop <==> th.lockmode == 1 && excl != 0)
    && (th.pc == RdWait ==> excl != 0)
  }

  ghost predicate AllConsistent(s: State) {
    forall t :: t in s.threads ==> Consistent(s.threads[t], s.excl)
  }

  ghost predicate OneLeader(s: State) {
    && (forall t, u :: Leading(s, t) && Leading(s, u) ==> t == u)
    && (s.excl != 0 ==> exists t :: Leading(s, t))
  }

  ghost predicate Exclusive(s: State) {
    forall t, u :: Alone(s, t) && u in s.threads && t != u ==> s.threads[u].lockmode == 0
  }

  /** The first upgrader waits only while somebody will signal it. */
  ghost predicate Awaited(s: State) {
    forall t :: At(s, t, UpWait) ==> exists u :: Locked(s, u, 1)
  }

  ghost predicate Inv(s: State) {
    s.ok && AllConsistent(s) && s.excl == |Pendings(s)| && OneLeader(s) && Exclusive(s) && Awaited(s)
  }

  const START := State(map[], 0, true)

  lemma StartInv()
    ensures Inv(START)
  {
    assert Pendings(START) == {};
  }

  ghost function Readers(s: State): set<nat> {
    set t | t in s.threads && s.threads[t].lockmode == 1
  }

  // ---- Counting

  lemma CountSame(s: State, n: State)
    requires forall u :: Pending(s, u) <==> Pending(n, u)
    ensures |Pendings(s)| == |Pendings(n)|
  {
    assert Pendings(s) == Pendings(n);
  }

  lemma CountMore(s: State, n: State, t: nat)
    requires !Pending(s, t) && Pending(n, t) && forall u :: u != t ==> (Pending(s, u) <==> Pending(n, u))
    ensures |Pendings(n)| == |Pendings(s)| + 1
  {
    assert Pendings(n) == Pendings(s) + {t};
  }

  lemma CountLess(s: State, n: State, t: nat)
    requires Pending(s, t) && !Pending(n, t) && forall u :: u != t ==> (Pending(s, u) <==> Pending(n, u))
    ensures |Pendings(n)| == |Pendings(s)| - 1
  {
    assert Pendings(s) == Pendings(n) + {t};
  }

  /** Nobody is pending when the counter is zero, and somebody leads otherwise. */
  lemma NonePending(s: State)
    requires Inv(s) && s.excl == 0
    ensures forall t :: !Pending(s, t)
  {
    forall t ensures !Pending(s, t) {
      assert t !in Pendings(s);
    }
  }

  // ---- A reader leaves while an upgrader waits

  /** Everybody but t is as before, except that a waiting first upgrader has been woken. */
  ghost predicate Woken(s: State, n: State, t: nat) {
    && (forall u :: u != t ==> (u in s.threads <==> u in n.threads))
    && (forall u :: u != t && u in s.threads ==>
          n.threads[u] == if s.threads[u].pc == UpWait then s.threads[u].(pc := UpReady) else s.threads[u])
  }

  lemma SignalWakes(s: State, t: nat, up: nat, m: State)
    requires Inv(s) && t in s.threads && s.threads[t].pc != UpWait && Wakes(s, UpWait, up)
    requires (forall u :: u != t ==> (u in s.threads <==> u in m.threads) && (u in s.threads ==> m.threads[u] == s.threads[u]))
    requires t in m.threads ==> m.threads[t].pc != UpWait
    ensures Woken(s, Signal(m, UpWait, UpReady, up), t)
    ensures t in m.threads ==>
      t in Signal(m, UpWait, UpReady, up).threads && Signal(m, UpWait, UpReady, up).threads[t] == m.threads[t]
    ensures t !in m.threads ==> t !in Signal(m, UpWait, UpReady, up).threads
  {
    var n := Signal(m, UpWait, UpReady, up);
    forall u | u != t && u in s.threads
      ensures n.threads[u] == if s.threads[u].pc == UpWait then s.threads[u].(pc := UpReady) else s.threads[u]
    {
      if s.threads[u].pc == UpWait {
        assert At(s, u, UpWait);
        assert Leading(s, u) && Leading(s, up);
      }
    }
  }

  /** What t becomes: a waiting thread without the lock, or nothing. */
  lemma LeaveInv(s: State, n: State, t: nat)
    requires Inv(s) && Locked(s, t, 1) && s.excl != 0 && Woken(s, n, t) && n.ok
    requires t in n.threads ==> n.threads[t].pc in {RdWait, WrWait} && n.threads[t].lockmode == 0 && !n.threads[t].stop
    requires n.excl == s.excl + if At(n, t, WrWait) then 1 else 0
    ensures Inv(n) && t in Readers(s) && Readers(n) == Readers(s) - {t}
  {
    var l :| Leading(s, l);
    assert !Alone(s, l);
    assert Leading(n, l);
    assert s.excl > 0;
    assert forall u :: Leading(n, u) <==> Leading(s, u);
    if At(n, t, WrWait) {
      CountMore(s, n, t);
    } else {
      CountSame(s, n);
    }
    assert forall u :: !Alone(n, u) by {
      forall u ensures !Alone(n, u) {
        assert !Alone(s, u);
      }
    }
    assert forall u :: !At(n, u, UpWait);
  }

  lemma YieldInv(s: State, t: nat, up: nat)
    requires Inv(s) && Enabled(s, Yield(t, up))
    ensures Inv(Next(s, Yield(t, up))) && t in Readers(s) && Readers(Next(s, Yield(t, up))) == Readers(s) - {t}
    ensures Woken(s, Next(s, Yield(t, up)), t)
  {
    assert Consistent(s.threads[t], s.excl);
    var m := Put(s, t, 0, false, RdWait);
    SignalWakes(s, t, up, m);
    LeaveInv(s, Next(s, Yield(t, up)), t);
  }

  lemma LateUpgradeInv(s: State, t: nat, up: nat)
    requires Inv(s) && Enabled(s, Upgrade(t, up)) && s.excl != 0
    ensures Inv(Next(s, Upgrade(t, up))) && t in Readers(s) && Readers(Next(s, Upgrade(t, up))) == Readers(s) - {t}
    ensures Woken(s, Next(s, Upgrade(t, up)), t)
  {
    assert Consistent(s.threads[t], s.excl);
    var m := Put(s.(excl := s.excl + 1), t, 0, false, WrWait);
    SignalWakes(s, t, up, m);
    LeaveInv(s, Next(s, Upgrade(t, up)), t);
  }

  lemma BusyDelInv(s: State, t: nat, up: nat)
    requires Inv(s) && Enabled(s, Del(t, up)) && s.excl != 0
    ensures Inv(Next(s, Del(t, up))) && t in Readers(s) && Readers(Next(s, Del(t, up))) == Readers(s) - {t}
    ensures Woken(s, Next(s, Del(t, up)), t)
  {
    assert Consistent(s.threads[t], s.excl);
    var m := s.(threads := s.threads - {t});
    SignalWakes(s, t, up, m);
    LeaveInv(s, Next(s, Del(t, up)), t);
  }

  // ---- Nobody wants the exclusive lock

  lemma QuietInv(n: State)
    requires n.ok && n.excl == 0 && AllConsistent(n) && forall u :: !Pending(n, u)
    ensures Inv(n)
  {
    assert Pendings(n) == {};
    forall u ensures !Leading(n, u) && !Alone(n, u) && !At(n, u, UpWait) {
      assert !Pending(n, u);
    }
  }

  ghost predicate OthersSame(s: State, n: State, t: nat) {
    && (forall u :: u != t ==> (u in s.threads <==> u in n.threads))
    && (forall u :: u != t && u in s.threads ==> n.threads[u] == s.threads[u])
  }

  /** One thread comes, goes or changes while the counter is zero. */
  lemma QuietStep(s: State, n: State, t: nat)
    requires Inv(s) && s.excl == 0 && n.excl == 0 && n.ok && OthersSame(s, n, t)
    requires t in n.threads ==> n.threads[t] in {Thread(1, false, Running)}
    ensures Inv(n)
  {
    NonePending(s);
    forall u ensures !Pending(n, u) {
      assert u != t && u in n.threads ==> !Pending(s, u);
    }
    QuietInv(n);
  }

  /** A thread that does not want the exclusive lock, and keeps what it holds of the lock. */
  lemma BystanderInv(s: State, n: State, t: nat)
    requires Inv(s) && n.ok && n.excl == s.excl && OthersSame(s, n, t) && t in n.threads
    requires !Pending(s, t) && !Pending(n, t) && Consistent(n.threads[t], n.excl)
    requires n.threads[t].lockmode == if t in s.threads then s.threads[t].lockmode else 0
    ensures Inv(n) && Readers(n) == Readers(s)
  {
    CountSame(s, n);
    assert forall u :: Leading(n, u) <==> Leading(s, u);
    assert forall u :: Alone(n, u) <==> Alone(s, u);
    forall u | At(n, u, UpWait) ensures exists v :: Locked(n, v, 1) {
      assert At(s, u, UpWait);
      var v :| Locked(s, v, 1);
      assert Locked(n, v, 1);
    }
  }

  lemma InitInv(s: State, t: nat)
    requires Inv(s) && Enabled(s, Init(t))
    ensures Inv(Next(s, Init(t)))
    ensures s.excl != 0 ==> Readers(Next(s, Init(t))) == Readers(s)
  {
    if s.excl == 0 {
      QuietStep(s, Next(s, Init(t)), t);
    } else {
      BystanderInv(s, Next(s, Init(t)), t);
    }
  }

  lemma SeeInv(s: State, t: nat)
    requires Inv(s) && Enabled(s, See(t))
    ensures Inv(Next(s, See(t)))
    ensures Readers(Next(s, See(t))) == Readers(s)
  {
    BystanderInv(s, Next(s, See(t)), t);
  }

  lemma QuietDelInv(s: State, t: nat, up: nat)
    requires Inv(s) && Enabled(s, Del(t, up)) && s.excl == 0
    ensures Inv(Next(s, Del(t, up)))
  {
    assert Consistent(s.threads[t], s.excl);
    QuietStep(s, Next(s, Del(t, up)), t);
  }

  lemma ReaderResumeInv(s: State, t: nat, up: nat)
    requires Inv(s) && Enabled(s, Resume(t, up)) && s.threads[t].pc == RdReady
    ensures Inv(Next(s, Resume(t, up)))
    ensures s.excl != 0 ==> Readers(Next(s, Resume(t, up))) == Readers(s)
  {
    assert Consistent(s.threads[t], s.excl);
    if s.excl == 0 {
      QuietStep(s, Next(s, Resume(t, up)), t);
    } else {
      BystanderInv(s, Next(s, Resume(t, up)), t);
    }
  }

  // ---- The leader

  /** The leader stays the leader. */
  lemma LeaderInv(s: State, n: State, t: nat)
    requires Inv(s) && n.ok && n.excl == s.excl && OthersSame(s, n, t) && Leading(s, t) && Leading(n, t)
    requires Consistent(n.threads[t], n.excl)
    requires Alone(n, t) ==> forall u :: u in s.threads && u != t ==> s.threads[u].lockmode == 0
    requires At(n, t, UpWait) ==> exists u :: u != t && Locked(s, u, 1)
    ensures Inv(n) && Readers(n) == Readers(s)
  {
    CountSame(s, n);
    assert forall u :: Leading(n, u) <==> Leading(s, u);
    forall u | Alone(n, u) ensures u == t {
      assert Leading(n, u);
    }
    forall u | At(n, u, UpWait) ensures exists v :: Locked(n, v, 1) {
      assert Leading(n, u);
      var v :| v != t && Locked(s, v, 1);
      assert Locked(n, v, 1);
    }
  }

  lemma LeaderResumeInv(s: State, t: nat, up: nat)
    requires Inv(s) && Enabled(s, Resume(t, up)) && s.threads[t].pc in {UpReady, WrReady}
    ensures Inv(Next(s, Resume(t, up)))
    ensures Readers(Next(s, Resume(t, up))) == Readers(s)
  {
    var n := Next(s, Resume(t, up));
    assert Consistent(s.threads[t], s.excl);
    assert Leading(s, t) && Pending(s, t);
    assert s.excl != 0 by {
      assert t in Pendings(s);
    }
    forall u | u in s.threads && u != t ensures s.threads[u].lockmode in {0, 1} {
      assert Consistent(s.threads[u], s.excl);
      assert Leading(s, u) ==> u == t;
    }
    if s.threads[t].pc == WrReady {
      assert Alone(s, t);
    }
    if u :| u in s.threads && s.threads[u].lockmode != 0 {
      assert Locked(s, u, 1) && u != t;
    }
    LeaderInv(s, n, t);
  }

  lemma WakeInv(s: State, t: nat)
    requires Inv(s) && Enabled(s, Wake(t))
    ensures Inv(Next(s, Wake(t))) && Readers(Next(s, Wake(t))) == Readers(s) && Next(s, Wake(t)).excl == s.excl
  {
    var n := Next(s, Wake(t));
    assert Consistent(s.threads[t], s.excl);
    if At(s, t, RdWait) {
      BystanderInv(s, n, t);
    } else {
      assert Leading(s, t);
      LeaderInv(s, n, t);
    }
  }

  // ---- The first upgrader

  /** The threads after the stop flags are set. */
  ghost predicate Stopped(s: State, m: State, t: nat) {
    && (forall u :: u in s.threads <==> u in m.threads)
    && (forall u :: u in s.threads && u != t ==>
          m.threads[u].lockmode in {0, 1} && m.threads[u].lockmode == s.threads[u].lockmode)
    && (forall u :: u in s.threads && u != t ==> Consistent(m.threads[u], 1) && !Pending(m, u))
    && t in m.threads && m.threads[t] == Thread(0, false, Running) && m.ok && m.excl == 1
  }

  lemma StopAllStops(s: State, t: nat)
    requires Inv(s) && s.excl == 0 && At(s, t, Running) && s.threads[t].lockmode != 2
    ensures Stopped(s, StopAll(Put(Check(s, s.threads[t].lockmode == 1).(excl := 1), t, 0, s.threads[t].stop, Running)), t)
  {
    NonePending(s);
    assert Consistent(s.threads[t], s.excl);
    forall u | u in s.threads ensures Consistent(s.threads[u], s.excl) && !Pending(s, u) {
    }
  }

  lemma ScanInv(s: State, m: State, t: nat)
    requires Inv(s) && s.excl == 0 && Stopped(s, m, t)
    ensures Inv(Scan(m, t))
  {
    var n := Scan(m, t);
    NonePending(s);
    forall u | u != t ensures !Pending(n, u) && !Leading(n, u) && !Alone(n, u) && !At(n, u, UpWait) {
      assert u in m.threads ==> !Pending(m, u);
    }
    CountMore(s, n, t);
    assert Leading(n, t);
    if At(n, t, UpWait) {
      var u :| u in m.threads && m.threads[u].lockmode != 0;
      assert Locked(n, u, 1);
    }
  }

  lemma FirstUpgradeInv(s: State, t: nat, up: nat)
    requires Inv(s) && Enabled(s, Upgrade(t, up)) && s.excl == 0
    ensures Inv(Next(s, Upgrade(t, up)))
  {
    hide Inv, Stopped, Scan, StopAll;
    StopAllStops(s, t);
    ScanInv(s, StopAll(Put(Check(s, s.threads[t].lockmode == 1).(excl := 1), t, 0, s.threads[t].stop, Running)), t);
  }

  // ---- The holder gives the lock back

  lemma LastDowngradeInv(s: State, t: nat, wr: nat, up: nat)
    requires Inv(s) && Enabled(s, Downgrade(t, wr, up)) && s.excl == 1
    ensures Inv(Next(s, Downgrade(t, wr, up)))
  {
    var n := Next(s, Downgrade(t, wr, up));
    assert Consistent(s.threads[t], s.excl);
    assert Alone(s, t) && Leading(s, t) && Pending(s, t);
    var m := Put(s, t, 1, false, Running);
    forall u ensures !Pending(m, u) && (u in s.threads && u != t ==> Consistent(s.threads[u], s.excl)) {
      if Pending(m, u) {
        assert u in Pendings(s) && t in Pendings(s) && u != t;
        assert Pendings(s) >= {t, u} && |{t, u}| == 2;
        SubsetSize({t, u}, Pendings(s));
        assert false;
      }
    }
    forall u ensures !Pending(n, u) {
      assert !Pending(m, u);
    }
    QuietInv(n);
  }

  lemma {:induction false} SubsetSize(a: set<nat>, b: set<nat>)
    requires a <= b
    ensures |a| <= |b|
  {
    if x :| x in a {
      SubsetSize(a - {x}, b - {x});
    }
  }

  lemma DowngradeInv(s: State, t: nat, wr: nat, up: nat)
    requires Inv(s) && Enabled(s, Downgrade(t, wr, up)) && s.excl != 1
    ensures Inv(Next(s, Downgrade(t, wr, up))) && Readers(Next(s, Downgrade(t, wr, up))) == Readers(s) == {}
    ensures At(Next(s, Downgrade(t, wr, up)), wr, WrReady)
  {
    var n := Next(s, Downgrade(t, wr, up));
    assert Consistent(s.threads[t], s.excl);
    assert Alone(s, t) && Leading(s, t) && Pending(s, t);
    assert t in Pendings(s);
    AnotherPending(s, t);
    assert wr != t && At(s, wr, WrWait);
    forall u | u in s.threads && u != t
      ensures u in n.threads && n.threads[u] == if u == wr then s.threads[u].(pc := WrReady) else s.threads[u]
      ensures Consistent(s.threads[u], s.excl) && !Leading(s, u) && s.threads[u].lockmode == 0
    {
      assert Leading(s, u) ==> u == t;
    }
    assert n.threads[t] == Thread(0, false, RdWait);
    assert forall u :: u != t ==> (u in s.threads <==> u in n.threads);
    assert Leading(n, wr);
    CountLess(s, n, t);
    assert forall u :: Leading(n, u) ==> u == wr;
    assert forall u :: Alone(n, u) ==> u == wr;
    assert forall u :: !At(n, u, UpWait);
  }

  /** Another thread that wants the lock waits for it. */
  lemma AnotherPending(s: State, t: nat)
    requires Inv(s) && Leading(s, t) && t in Pendings(s) && s.excl != 1
    ensures s.excl > 1 && exists u :: u != t && At(s, u, WrWait)
  {
    var rest := Pendings(s) - {t};
    assert |Pendings(s)| == |rest| + 1;
    assert rest != {};
    var u :| u in rest;
    assert Pending(s, u);
    assert Leading(s, u) ==> u == t;
    assert At(s, u, WrWait);
  }

  /** Every section of every thread keeps the invariant, and no assert fails. */
  lemma NextInv(s: State, a: Action)
    requires Inv(s) && Enabled(s, a)
    ensures Inv(Next(s, a))
  {
    match a
    case Init(t) => InitInv(s, t);
    case See(t) => SeeInv(s, t);
    case Yield(t, up) => YieldInv(s, t, up);
    case Upgrade(t, up) =>
      if s.excl == 0 {
        FirstUpgradeInv(s, t, up);
      } else {
        LateUpgradeInv(s, t, up);
      }
    case Resume(t, up) =>
      if s.threads[t].pc == RdReady {
        ReaderResumeInv(s, t, up);
      } else {
        LeaderResumeInv(s, t, up);
      }
    case Downgrade(t, wr, up) =>
      if s.excl == 1 {
        LastDowngradeInv(s, t, wr, up);
      } else {
        DowngradeInv(s, t, wr, up);
      }
    case Del(t, up) =>
      if s.excl == 0 {
        QuietDelInv(s, t, up);
      } else {
        BusyDelInv(s, t, up);
      }
    case Wake(t) => WakeInv(s, t);
  }

  /** Without the signal it would not do: a waiting upgrader that woke by itself could find the lock taken. */
  lemma WriterNeedsSignal() returns (s: State)
    ensures Inv(s) && At(s, 1, WrWait) && Locked(s, 0, 2)
    ensures var n := Signal(s, WrWait, WrReady, 1); Enabled(n, Resume(1, 1)) && !Next(n, Resume(1, 1)).ok
  {
    s := State(map[0 := Thread(2, false, Running), 1 := Thread(0, false, WrWait)], 2, true);
    assert Pendings(s) == {0, 1};
    assert Leading(s, 0);
    assert Locked(Signal(s, WrWait, WrReady, 1), 0, 2);
  }

  // ---- Runs

  /** The states of a run from s: each section is one that is possible then. */
  ghost predicate From(s: State, states: seq<State>, run: seq<Action>) {
    && |states| == |run| + 1 && states[0] == s
    && forall i :: 0 <= i < |run| ==> Enabled(states[i], run[i]) && states[i + 1] == Next(states[i], run[i])
  }

  ghost predicate Path(states: seq<State>, run: seq<Action>) {
    From(START, states, run)
  }

  lemma {:induction false} PathInv(states: seq<State>, run: seq<Action>, i: nat)
    requires Path(states, run) && i < |states|
    ensures Inv(states[i])
  {
    if i == 0 {
      StartInv();
    } else {
      PathInv(states, run, i - 1);
      NextInv(states[i - 1], run[i - 1]);
      assert states[i - 1 + 1] == states[i];
    }
  }

  /**
   * In every state of every run: no assert has failed, an exclusive holder is alone, the counter is right, readers are
   * told to stop.
   */
  lemma Safety(states: seq<State>, run: seq<Action>, i: nat)
    requires Path(states, run) && i < |states|
    ensures var s := states[i];
      && s.ok && s.excl == |Pendings(s)|
      && (forall t, u :: Locked(s, t, 2) && u in s.threads && u != t ==> s.threads[u].lockmode == 0)
      && (forall t :: Locked(s, t, 1) && s.excl > 0 ==> s.threads[t].stop)
  {
    var s := states[i];
    PathInv(states, run, i);
    forall t, u | Locked(s, t, 2) && u in s.threads && u != t ensures s.threads[u].lockmode == 0 {
      assert Alone(s, t);
    }
    forall t | Locked(s, t, 1) && s.excl > 0 ensures s.threads[t].stop {
      assert Consistent(s.threads[t], s.excl);
    }
  }

  /** What it means that no assert of a section has failed, assert by assert. */
  lemma AssertsHold(s: State, a: Action)
    requires Enabled(s, a) && Next(s, a).ok
    ensures s.ok
    ensures a.Yield? || a.Upgrade? || a.Del? ==> s.threads[a.t].lockmode == 1
    ensures a.Upgrade? && s.excl != 0 ==> s.threads[a.t].stop
    ensures a.Upgrade? && s.excl == 0 ==> forall u :: u in s.threads ==> s.threads[u].lockmode != 2
    ensures a.Downgrade? ==> s.threads[a.t].lockmode == 2 && !s.threads[a.t].stop
    ensures a.Yield? && s.excl == 0 ==> !s.threads[a.t].stop
    ensures a.Resume? && s.threads[a.t].pc == RdReady && s.excl == 0 ==> s.threads[a.t].lockmode == 0 && !s.threads[a.t].stop
    ensures a.Resume? && s.threads[a.t].pc == UpReady ==> forall u :: u in s.threads ==> s.threads[u].lockmode != 2
    ensures a.Resume? && s.threads[a.t].pc == WrReady ==>
      forall u :: u in s.threads ==> s.threads[u].lockmode == 0 && !s.threads[u].stop
  {
    if a.Upgrade? && s.excl == 0 {
      var n := Next(s, a);
      forall u | u in s.threads && u != a.t ensures s.threads[u].lockmode != 2 {
        var m := Put(Check(s, s.threads[a.t].lockmode == 1).(excl := 1), a.t, 0, s.threads[a.t].stop, s.threads[a.t].pc);
        assert m.threads[u] == s.threads[u];
      }
    }
  }

  // ---- Nobody gets stuck

  /** Nobody sleeps for nothing: without an upgrader everybody runs or is about to. */
  lemma NobodySleeps(s: State)
    requires Inv(s) && s.excl == 0
    ensures forall t :: t in s.threads ==> s.threads[t].pc in {Running, RdReady} && s.threads[t].lockmode != 2
  {
    NonePending(s);
    forall t | t in s.threads ensures s.threads[t].pc in {Running, RdReady} && s.threads[t].lockmode != 2 {
      assert Consistent(s.threads[t], s.excl) && !Pending(s, t);
    }
  }

  /**
   * With an upgrader somebody can go on: the holder, a woken upgrader, or a reader that has been told to stop and whose
   * next yield, upgrade or exit wakes the first upgrader.
   */
  lemma SomebodyProceeds(s: State) returns (l: nat, u: nat)
    requires Inv(s) && s.excl != 0
    ensures Locked(s, l, 2) || At(s, l, WrReady) || At(s, l, UpReady)
      || (At(s, l, UpWait) && Locked(s, u, 1) && s.threads[u].stop && s.threads[u].pc in {Running, Yielding})
    ensures Locked(s, l, 2) ==> At(s, l, Running)
  {
    l :| Leading(s, l);
    u := l;
    assert Consistent(s.threads[l], s.excl);
    if At(s, l, UpWait) {
      u :| Locked(s, u, 1);
      assert Consistent(s.threads[u], s.excl);
    }
  }

  ghost predicate Leaves(a: Action) { a.Yield? || a.Upgrade? || a.Del? }

  /** What the reader does next wakes the first upgrader. */
  lemma ReaderWakes(s: State, l: nat, a: Action)
    requires Inv(s) && Enabled(s, a) && At(s, l, UpWait) && Leaves(a)
    ensures At(Next(s, a), l, UpReady)
  {
    assert Leading(s, l) && Pending(s, l);
    assert l in Pendings(s);
    assert Consistent(s.threads[a.t], s.excl) && Consistent(s.threads[l], s.excl);
    assert At(s, l, UpWait) && At(s, a.up, UpWait);
    assert Leading(s, a.up);
  }

  /** While an upgrader waits nobody gets the lock for reading, and every reader that leaves makes the wait shorter. */
  lemma ReadersDrain(s: State, a: Action)
    requires Inv(s) && Enabled(s, a) && s.excl != 0 && Next(s, a).excl != 0
    ensures Readers(Next(s, a)) == if Leaves(a) then Readers(s) - {a.t} else Readers(s)
    ensures Leaves(a) ==> a.t in Readers(s)
  {
    hide Next, Inv, Readers;
    match a
    case Init(t) => InitInv(s, t);
    case See(t) => SeeInv(s, t);
    case Yield(t, up) => YieldInv(s, t, up);
    case Upgrade(t, up) => LateUpgradeInv(s, t, up);
    case Resume(t, up) =>
      if s.threads[t].pc == RdReady {
        ReaderResumeInv(s, t, up);
      } else {
        LeaderResumeInv(s, t, up);
      }
    case Downgrade(t, wr, up) =>
      LastCount(s, a);
      DowngradeInv(s, t, wr, up);
    case Del(t, up) => BusyDelInv(s, t, up);
    case Wake(t) => WakeInv(s, t);
  }

  lemma LastCount(s: State, a: Action)
    requires Enabled(s, a) && a.Downgrade?
    ensures Next(s, a).excl == s.excl - 1
  {
  }

  /** The first upgrader gets the exclusive lock as soon as it looks and no reader is left. */
  lemma FirstUpgraderGetsIt(s: State, t: nat, up: nat)
    requires Inv(s) && At(s, t, UpReady) && Enabled(s, Resume(t, up))
    ensures Locked(Next(s, Resume(t, up)), t, 2) <==> Readers(s) == {}
  {
    assert Leading(s, t) && Consistent(s.threads[t], s.excl);
    forall u | u in s.threads ensures s.threads[u].lockmode in {0, 1} {
      assert Consistent(s.threads[u], s.excl);
      assert Leading(s, u) ==> u == t;
    }
    if u :| u in s.threads && s.threads[u].lockmode != 0 {
      assert u in Readers(s);
    }
  }

  // ---- Who gets the lock

  /**
   * Starts, yields, is woken up to read, or gives the exclusive lock back: gets the lock for reading unless there is an
   * upgrader.
   */
  lemma ReaderGetsIt(s: State, a: Action)
    requires Inv(s) && Enabled(s, a)
    requires a.Init? || a.Yield? || a.Downgrade? || (a.Resume? && At(s, a.t, RdReady))
    ensures Next(s, a).excl == 0 ==> Locked(Next(s, a), a.t, 1) && At(Next(s, a), a.t, Running)
    ensures Next(s, a).excl != 0 ==> Locked(Next(s, a), a.t, 0) && At(Next(s, a), a.t, RdWait)
    ensures Next(s, a).excl == s.excl - if a.Downgrade? then 1 else 0
  {
    if a.t in s.threads {
      assert Consistent(s.threads[a.t], s.excl);
    }
  }

  /** Upgrades: gets the exclusive lock at once if nobody else has the lock or wants it, and waits otherwise. */
  lemma UpgraderGetsIt(s: State, t: nat, up: nat)
    requires Inv(s) && Enabled(s, Upgrade(t, up))
    ensures var n := Next(s, Upgrade(t, up));
      && n.excl == s.excl + 1
      && if s.excl != 0 then Locked(n, t, 0) && At(n, t, WrWait)
         else if Readers(s) == {t} then Locked(n, t, 2) && At(n, t, Running)
         else Locked(n, t, 0) && At(n, t, UpWait)
  {
    assert Consistent(s.threads[t], s.excl) && t in Readers(s);
    if s.excl == 0 {
      StopAllStops(s, t);
      StoppedReaders(s, StopAll(Put(Check(s, true).(excl := 1), t, 0, false, Running)), t);
    }
  }

  lemma StoppedReaders(s: State, m: State, t: nat)
    requires Stopped(s, m, t) && t in Readers(s)
    ensures (exists u :: u in m.threads && m.threads[u].lockmode != 0) <==> Readers(s) != {t}
  {
    if Readers(s) != {t} {
      assert Readers(s) - {t} != {};
      var u :| u in Readers(s) - {t};
      assert m.threads[u].lockmode != 0;
    }
    if u :| u in m.threads && m.threads[u].lockmode != 0 {
      assert u in s.threads && u != t && s.threads[u].lockmode == 1;
      assert u in Readers(s);
    }
  }

  /** A woken upgrader gets the exclusive lock, the first one only if no reader is left. */
  lemma WokenUpgraderGetsIt(s: State, t: nat, up: nat)
    requires Inv(s) && Enabled(s, Resume(t, up)) && s.threads[t].pc in {UpReady, WrReady}
    ensures var n := Next(s, Resume(t, up));
      && n.excl == s.excl
      && if At(s, t, WrReady) || Readers(s) == {} then Locked(n, t, 2) && At(n, t, Running)
         else Locked(n, t, 0) && At(n, t, UpWait)
  {
    if At(s, t, UpReady) {
      FirstUpgraderGetsIt(s, t, up);
    }
    assert Consistent(s.threads[t], s.excl);
  }

  /** The other sections: who goes is gone, who has seen its stop flag yields, and a wakeup without a signal wakes. */
  lemma OtherSections(s: State, a: Action)
    requires Inv(s) && Enabled(s, a) && (a.Del? || a.See? || a.Wake?)
    ensures Next(s, a).excl == s.excl && (a.t in Next(s, a).threads <==> !a.Del?)
    ensures a.See? ==> Locked(Next(s, a), a.t, 1) && At(Next(s, a), a.t, Yielding) && Next(s, a).threads[a.t].stop
    ensures a.Wake? ==> Locked(Next(s, a), a.t, 0) && At(Next(s, a), a.t, if At(s, a.t, RdWait) then RdReady else UpReady)
  {
    assert Consistent(s.threads[a.t], s.excl);
  }

  /** What a section does to another thread: at most a wakeup, or the stop flag of a reader that is to leave. */
  ghost function Touched(s: State, a: Action, u: nat): Thread
    requires u in s.threads
  {
    var th := s.threads[u];
    if a.Upgrade? && s.excl == 0 then th.(stop := th.lockmode == 1)
    else if th.pc == UpWait && Leaves(a) then th.(pc := UpReady)
    else if th.pc == RdWait && a.Downgrade? && s.excl == 1 then th.(pc := RdReady)
    else if th.pc == WrWait && a.Downgrade? && s.excl > 1 && u == a.wr then th.(pc := WrReady)
    else th
  }

  ghost predicate OthersTouched(s: State, a: Action, n: State) {
    && (forall u :: u != a.t ==> (u in s.threads <==> u in n.threads))
    && (forall u :: u != a.t && u in s.threads ==> n.threads[u] == Touched(s, a, u))
  }

  lemma UpgradeTouches(s: State, a: Action)
    requires Inv(s) && Enabled(s, a) && a.Upgrade? && s.excl == 0
    ensures OthersTouched(s, a, Next(s, a))
  {
    forall u | u in s.threads ensures s.threads[u].lockmode != 0 ==> s.threads[u].lockmode == 1
      ensures !s.threads[u].stop
    {
      NonePending(s);
      assert Consistent(s.threads[u], s.excl) && !Pending(s, u);
    }
  }

  lemma LeavingTouches(s: State, a: Action)
    requires Inv(s) && Enabled(s, a) && Leaves(a) && !(a.Upgrade? && s.excl == 0)
    ensures OthersTouched(s, a, Next(s, a))
  {
    if s.excl != 0 {
      hide Inv, Next, Enabled;
      match a
      case Yield(t, up) => YieldInv(s, t, up);
      case Upgrade(t, up) => LateUpgradeInv(s, t, up);
      case Del(t, up) => BusyDelInv(s, t, up);
    } else {
      NonePending(s);
      assert Consistent(s.threads[a.t], s.excl);
      assert forall u :: u in s.threads ==> !Pending(s, u);
      hide Inv, Pendings;
    }
  }

  lemma DowngradeTouches(s: State, a: Action)
    requires Inv(s) && Enabled(s, a) && a.Downgrade?
    ensures OthersTouched(s, a, Next(s, a))
  {
    assert Pending(s, a.t) && Leading(s, a.t) && a.t in Pendings(s);
    assert Consistent(s.threads[a.t], s.excl);
    if s.excl != 1 {
      AnotherPending(s, a.t);
    }
  }

  /** Everything a section does to the threads that do not run it. */
  lemma OthersAre(s: State, a: Action)
    requires Inv(s) && Enabled(s, a)
    ensures OthersTouched(s, a, Next(s, a))
  {
    if a.Upgrade? && s.excl == 0 {
      UpgradeTouches(s, a);
    } else if Leaves(a) {
      LeavingTouches(s, a);
    } else if a.Downgrade? {
      DowngradeTouches(s, a);
    }
  }

  /** The lock refuses no call: what a thread may do depends on nothing but where it is and what it holds. */
  lemma NothingIsRefused(s: State, t: nat) returns (wr: nat, up: nat)
    ensures t !in s.threads ==> Enabled(s, Init(t))
    ensures At(s, t, Running) && Locked(s, t, 1) ==> Enabled(s, Upgrade(t, up)) && Enabled(s, Del(t, up))
    ensures At(s, t, Running) && Locked(s, t, 1) && s.threads[t].stop ==> Enabled(s, See(t))
    ensures At(s, t, Running) && Locked(s, t, 2) ==> Enabled(s, Downgrade(t, wr, up))
    ensures At(s, t, Yielding) ==> Enabled(s, Yield(t, up))
    ensures At(s, t, RdReady) || At(s, t, WrReady) || At(s, t, UpReady) ==> Enabled(s, Resume(t, up))
    ensures At(s, t, RdWait) || At(s, t, UpWait) ==> Enabled(s, Wake(t))
  {
    wr, up := t, t;
    if exists u :: At(s, u, WrWait) {
      wr :| At(s, wr, WrWait);
    }
    if exists u :: At(s, u, UpWait) {
      up :| At(s, up, UpWait);
    }
  }

  // ---- Everybody gets the lock

  /** What a thread does that only finishes what it has begun, or does what its stop flag asks for. */
  ghost predicate Finishes(a: Action) { a.See? || a.Yield? || a.Resume? || a.Downgrade? }

  ghost function Sleepers(s: State): set<nat> {
    set t | t in s.threads && s.threads[t].pc == RdReady
  }

  ghost function Left(s: State): nat {
    if s.excl == 0 then |Sleepers(s)| else |Readers(s)|
  }

  /** How far the leader is from having the lock, or from one reader less. */
  ghost function Rank(s: State): nat {
    if exists t :: At(s, t, UpReady) then 3
    else if exists t :: At(s, t, UpWait) then (if exists t :: At(s, t, Yielding) then 1 else 2)
    else if exists t :: At(s, t, WrReady) then 1
    else 0
  }

  /** The state after is nearer to the end, and who wants the exclusive lock without having it still does. */
  ghost predicate Nearer(s: State, n: State) {
    && Inv(n) && (forall t :: t in n.threads <==> t in s.threads)
    && (forall t :: Pending(s, t) && !Locked(s, t, 2) ==> Pending(n, t))
    && (n.excl < s.excl || (n.excl == s.excl && (Left(n) < Left(s) || (Left(n) == Left(s) && Rank(n) < Rank(s)))))
  }

  ghost predicate GoesOn(s: State, a: Action) {
    Finishes(a) && Enabled(s, a) && Nearer(s, Next(s, a))
  }

  /** Nobody but the thread of the section stops wanting the exclusive lock. */
  lemma StillWanting(s: State, a: Action)
    requires Inv(s) && Enabled(s, a)
    ensures OthersTouched(s, a, Next(s, a))
    ensures forall u :: u != a.t && Pending(s, u) ==> Pending(Next(s, a), u)
  {
    hide Inv, Next, Enabled;
    OthersAre(s, a);
  }

  lemma SleeperGoesOn(s: State, t: nat)
    requires Inv(s) && s.excl == 0 && At(s, t, RdReady)
    ensures GoesOn(s, Resume(t, t))
  {
    var a := Resume(t, t);
    NonePending(s);
    assert Wakes(s, UpWait, t) by {
      assert forall u :: At(s, u, UpWait) ==> Pending(s, u);
    }
    ReaderResumeInv(s, t, t);
    ReaderGetsIt(s, a);
    OthersAre(s, a);
    assert Sleepers(Next(s, a)) == Sleepers(s) - {t};
    assert t in Sleepers(s);
  }

  lemma HolderGoesOn(s: State, l: nat) returns (a: Action)
    requires Inv(s) && Locked(s, l, 2)
    ensures GoesOn(s, a)
  {
    assert Leading(s, l) && Consistent(s.threads[l], s.excl);
    assert Wakes(s, UpWait, l) by {
      assert forall u :: At(s, u, UpWait) ==> Leading(s, u);
    }
    var wr: nat := l;
    if exists u :: At(s, u, WrWait) {
      wr :| At(s, wr, WrWait);
    }
    a := Downgrade(l, wr, l);
    assert Enabled(s, a);
    hide Inv, Next, Enabled, Rank, Left;
    NextInv(s, a);
    LastCount(s, a);
    StillWanting(s, a);
    ReaderGetsIt(s, a);
  }

  /** The first upgrader is the only one. */
  lemma OnlyLeader(s: State, l: nat)
    requires Inv(s) && Leading(s, l)
    ensures forall u :: u != l ==> !At(s, u, UpWait) && !At(s, u, UpReady) && !At(s, u, WrReady)
    ensures s.excl != 0
    ensures Locked(s, l, 2) ==> Rank(s) == 0
    ensures At(s, l, WrReady) ==> Rank(s) == 1
    ensures At(s, l, UpWait) ==> Rank(s) == if exists u :: At(s, u, Yielding) then 1 else 2
    ensures At(s, l, UpReady) ==> Rank(s) == 3
  {
    assert Pending(s, l) && l in Pendings(s);
    assert Consistent(s.threads[l], s.excl);
    forall u | u != l ensures !At(s, u, UpWait) && !At(s, u, UpReady) && !At(s, u, WrReady) {
      assert !Leading(s, u);
    }
  }

  /** A woken upgrader resumes. */
  lemma LeaderGoesOn(s: State, l: nat)
    requires Inv(s) && (At(s, l, WrReady) || At(s, l, UpReady))
    ensures GoesOn(s, Resume(l, l))
  {
    var a := Resume(l, l);
    OnlyLeader(s, l);
    assert Enabled(s, a);
    hide Inv, Next, OthersTouched, Rank, Enabled;
    LeaderResumeInv(s, l, l);
    WokenUpgraderGetsIt(s, l, l);
    StillWanting(s, a);
    OnlyLeader(Next(s, a), l);
  }

  /** A reader that stands in the way of the first upgrader yields, */
  lemma ReaderYields(s: State, l: nat, u: nat)
    requires Inv(s) && At(s, l, UpWait) && At(s, u, Yielding)
    ensures GoesOn(s, Yield(u, l))
  {
    var a := Yield(u, l);
    OnlyLeader(s, l);
    assert Enabled(s, a);
    hide Inv, Next, OthersTouched, Rank, Enabled;
    YieldInv(s, u, l);
    ReaderGetsIt(s, a);
    StillWanting(s, a);
  }

  /** once it has noticed its stop flag. */
  lemma ReaderSees(s: State, l: nat, u: nat)
    requires Inv(s) && At(s, l, UpWait) && Locked(s, u, 1) && forall v :: !At(s, v, Yielding)
    ensures GoesOn(s, See(u))
  {
    var a := See(u);
    OnlyLeader(s, l);
    assert Consistent(s.threads[u], s.excl);
    assert !At(s, u, Yielding);
    assert Enabled(s, a);
    SeeInv(s, u);
    assert At(Next(s, a), u, Yielding) && At(Next(s, a), l, UpWait);
    hide Inv, Next, OthersTouched, Rank, Enabled;
    StillWanting(s, a);
    OnlyLeader(Next(s, a), l);
  }

  /** Somebody can go on, until everybody runs and holds the lock for reading. */
  lemma SomebodyGoesOn(s: State) returns (a: Action)
    requires Inv(s) && exists t :: t in s.threads && s.threads[t] != Thread(1, false, Running)
    ensures GoesOn(s, a)
  {
    if s.excl == 0 {
      NobodySleeps(s);
      var t :| t in s.threads && s.threads[t] != Thread(1, false, Running);
      assert Consistent(s.threads[t], s.excl);
      SleeperGoesOn(s, t);
      a := Resume(t, t);
    } else {
      var l, u := SomebodyProceeds(s);
      if Locked(s, l, 2) {
        a := HolderGoesOn(s, l);
      } else if At(s, l, WrReady) || At(s, l, UpReady) {
        LeaderGoesOn(s, l);
        a := Resume(l, l);
      } else if v :| At(s, v, Yielding) {
        ReaderYields(s, l, v);
        a := Yield(v, l);
      } else {
        ReaderSees(s, l, u);
        a := See(u);
      }
    }
  }

  /**
   * Whatever has happened, nobody waits for good: with everybody only finishing what is begun, each upgrader has the
   * exclusive lock at some time, and in the end everybody holds the lock for reading and runs.
   */
  lemma {:induction false} EverybodyGetsIt(s: State) returns (states: seq<State>, run: seq<Action>)
    requires Inv(s)
    ensures From(s, states, run) && forall i :: 0 <= i < |run| ==> Finishes(run[i])
    ensures forall t :: Pending(s, t) ==> exists i :: 0 <= i < |states| && Locked(states[i], t, 2)
    ensures var n := states[|run|];
      && (forall t :: t in n.threads <==> t in s.threads)
      && (forall t :: t in n.threads ==> n.threads[t] == Thread(1, false, Running))
    decreases s.excl, Left(s), Rank(s)
  {
    if forall t :: t in s.threads ==> s.threads[t] == Thread(1, false, Running) {
      states, run := [s], [];
      assert forall t :: !Pending(s, t);
    } else {
      hide Inv, Next, Enabled, Left, Rank, Finishes, From;
      var a := SomebodyGoesOn(s);
      NotNegative(s);
      NotNegative(Next(s, a));
      var rest, todo := EverybodyGetsIt(Next(s, a));
      states, run := [s] + rest, [a] + todo;
      OneMore(s, a, rest, todo);
      assert states[|run|] == rest[|todo|];
      forall t | Pending(s, t) ensures exists i :: 0 <= i < |states| && Locked(states[i], t, 2) {
        SomeTimeLocked(s, rest, t);
      }
    }
  }

  lemma OneMore(s: State, a: Action, states: seq<State>, run: seq<Action>)
    requires Enabled(s, a) && From(Next(s, a), states, run)
    ensures From(s, [s] + states, [a] + run)
  {
    hide Enabled, Next;
  }

  lemma SomeTimeLocked(s: State, rest: seq<State>, t: nat)
    requires Locked(s, t, 2) || exists i :: 0 <= i < |rest| && Locked(rest[i], t, 2)
    ensures exists i :: 0 <= i < |[s] + rest| && Locked(([s] + rest)[i], t, 2)
  {
    if Locked(s, t, 2) {
      assert Locked(([s] + rest)[0], t, 2);
    } else {
      var i :| 0 <= i < |rest| && Locked(rest[i], t, 2);
      assert ([s] + rest)[i + 1] == rest[i];
    }
  }

  lemma NotNegative(s: State)
    requires Inv(s)
    ensures s.excl >= 0
  {
  }
}
