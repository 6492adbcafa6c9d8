/**
 * The two host threads of oclengine.c: the main loop prepares batches and checks results, the worker runs the kernels.
 */
module OclHandshake {
  // The threads share the number of the slot that is being run, one lock and one condition variable; there are two
  // slots, each with a stride buffer and a result buffer, and one column buffer.
  //
  // A step is what one thread does between two points where the other can get in. Both threads wait in loops, so they
  // may also wake up by themselves. What the checks find and when a key is used up is left open.

  /** vg_opencl_thread: about to lock, waiting, woken up, running the kernel, gone. */
  datatype WorkerPc = Locking | Waiting | Ready | Kernel | Out

  /** vg_opencl_loop. */
  datatype LoopPc =
    | Rekey | Top | CheckResult | Decide | WriteStrides
    | SubmitLock | SubmitWait | SubmitReady
    | DrainLock | DrainWait | DrainReady
    | HaltLock | HaltWait | HaltReady
    | Join | Done

  /** The worker's slot and halt. */
  datatype Worker = Worker(pc: WorkerPc, slot: int, err: bool)

  /** slot, slot_busy, slot_done, and whether npoints + round < rekey_at and rekey_at == 0. */
  datatype Main = Main(pc: LoopPc, slot: int, busy: bool, done: bool, room: bool, due: bool)

  /**
   * Batches by number: the first since the last new key, the next to be submitted, what the slots hold, what was
   * checked.
   */
  datatype Batches = Batches(first: nat, next: nat, content0: int, content1: int, checked: set<nat>) {
    ghost function Content(slot: int): int { if slot == 0 then content0 else content1 }

    ghost function Submitted(slot: int): Batches {
      if slot == 0 then Batches(first, next + 1, next, content1, checked) else Batches(first, next + 1, content0, next, checked)
    }

    ghost function Checked(slot: int): Batches {
      if Content(slot) >= 0 then Batches(first, next, content0, content1, checked + {Content(slot)}) else this
    }
  }

  /** voc_ocl_slot, voc_halt and the two threads; ok turns false when an assert of the code fails. */
  datatype State = State(oclSlot: int, halt: bool, w: Worker, m: Main, b: Batches, ok: bool)

  datatype Action = WorkerStep(err: bool) | LoopStep(choice: nat) | WorkerWakes | LoopWakes

  ghost function Check(s: State, b: bool): State { s.(ok := s.ok && b) }

  ghost predicate LoopWaits(s: State) { s.m.pc in {SubmitWait, DrainWait, HaltWait} }

  ghost function Awake(pc: LoopPc): LoopPc {
    match pc
    case SubmitWait => SubmitReady
    case DrainWait => DrainReady
    case HaltWait => HaltReady
    case _ => pc
  }

  /** Wakes the main loop, if it waits. */
  ghost function WakeLoop(s: State): State { s.(m := s.m.(pc := Awake(s.m.pc))) }

  /** Wakes the worker, if it waits. */
  ghost function WakeWorker(s: State): State {
    if s.w.pc.Waiting? then s.(w := s.w.(pc := Ready)) else s
  }

  // ---- The worker

  /** The loop around the wait. */
  ghost function Pick(s: State): State {
    if s.oclSlot == -1 then
      if s.halt then s.(w := s.w.(pc := Out)) else s.(w := s.w.(pc := Waiting))
    else
      s.(w := s.w.(pc := Kernel, slot := s.oclSlot))
  }

  /** What comes before it: an error is reported and the slot that was run is given back. */
  ghost function HandBack(s: State): State {
    var s1 := if s.w.err then s.(halt := true, w := s.w.(err := false)) else s;
    if s1.w.slot != -1 then WakeLoop(Check(s1, s1.oclSlot == s1.w.slot).(oclSlot := -1, w := s1.w.(slot := -1))) else s1
  }

  ghost function WorkerNext(s: State, err: bool): State {
    match s.w.pc
    case Locking => Pick(HandBack(s))
    case Ready => Pick(s)
    case Kernel => s.(w := s.w.(pc := Locking, err := s.w.err || err))
    case _ => s
  }

  // ---- The main loop

  ghost function Goto(s: State, pc: LoopPc): State { s.(m := s.m.(pc := pc)) }

  ghost function Submit(s: State, choice: nat): State {
    if s.oclSlot != -1 then Goto(Check(s, s.m.busy), SubmitWait)
    else if s.halt then Goto(s, HaltLock)
    else
      WakeWorker(s.(oclSlot := s.m.slot, b := s.b.Submitted(s.m.slot),
                    m := Main(Top, (s.m.slot + 1) % 2, true, s.m.busy, choice == 0, s.m.due)))
  }

  ghost function Drain(s: State): State {
    if s.oclSlot != -1 then Goto(Check(s, s.oclSlot == (s.m.slot + 2 - 1) % 2), DrainWait)
    else s.(m := s.m.(busy := false, done := true, pc := if s.m.due then Rekey else Top))
  }

  ghost function Halt(s: State): State {
    if s.oclSlot != -1 then Goto(Check(s, s.m.busy), HaltWait) else s.(m := s.m.(busy := false, pc := Join))
  }

  /** A choice of 0 is: points left, nothing found, no halt. */
  ghost function LoopNext(s: State, choice: nat): State {
    match s.m.pc
    case Rekey => s.(m := Main(Top, 0, false, false, choice == 0, false), b := s.b.(first := s.b.next))
    case Top => if s.m.done then Check(s, !s.m.due).(m := s.m.(done := false, pc := CheckResult)) else Goto(s, Decide)
    case CheckResult =>
      s.(m := s.m.(pc := Decide, room := s.m.room && choice == 0, due := choice != 0), b := s.b.Checked(s.m.slot))
    case Decide =>
      Goto(s, if choice != 0 then HaltLock else if s.m.room then WriteStrides else if s.m.busy then DrainLock else Rekey)
    case WriteStrides => Goto(s, SubmitLock)
    case SubmitLock => Submit(s, choice)
    case SubmitReady => Submit(s, choice)
    case DrainLock => Drain(s)
    case DrainReady => Drain(s)
    case HaltLock => Halt(WakeWorker(s.(halt := true)))
    case HaltReady => Halt(s)
    case Join => Goto(s, Done)
    case _ => s
  }

  ghost predicate Enabled(s: State, a: Action) {
    match a
    case WorkerStep(err) => s.w.pc in {Locking, Ready, Kernel}
    case LoopStep(choice) => !LoopWaits(s) && s.m.pc != Done && (s.m.pc == Join ==> s.w.pc == Out)
    case WorkerWakes => s.w.pc == Waiting
    case LoopWakes => LoopWaits(s)
  }

  ghost function Next(s: State, a: Action): State {
    match a
    case WorkerStep(err) => WorkerNext(s, err)
    case LoopStep(choice) => LoopNext(s, choice)
    case WorkerWakes => WakeWorker(s)
    case LoopWakes => WakeLoop(s)
  }

  /** The worker has been started; the first key is about to be made. */
  const START :=
    State(-1, false, Worker(Locking, -1, false), Main(Rekey, 0, false, false, false, false), Batches(0, 0, -1, -1, {}), true)

  // ---- The invariant

  ghost predicate WorkerInv(oclSlot: int, halt: bool, w: Worker) {
    && w.slot in {-1, 0, 1}
    && match w.pc
       case Locking => (w.slot != -1 ==> oclSlot == w.slot) && (w.err ==> w.slot != -1)
       case Waiting => w.slot == -1 && oclSlot == -1 && !halt && !w.err
       case Ready => w.slot == -1 && !w.err
       case Kernel => w.slot == oclSlot != -1 && !w.err
       case Out => w.slot == -1 && oclSlot == -1 && halt && !w.err
  }

  ghost predicate LoopInv(oclSlot: int, halt: bool, m: Main) {
    && m.slot in {0, 1}
    && (oclSlot != -1 ==> m.busy && oclSlot == 1 - m.slot)
    && (m.pc in {SubmitWait, DrainWait, HaltWait} ==> oclSlot != -1)
    && (m.pc in {Rekey, Join, Done} ==> oclSlot == -1)
    && (m.pc in {Join, Done} ==> !m.busy)
    && (m.pc in {DrainLock, DrainWait, DrainReady} ==> m.busy && !m.room)
    && (m.done ==> m.pc in {Top, Rekey})
    && (m.pc in {HaltWait, HaltReady, Join, Done} ==> halt)
    && (m.due ==> !m.room && m.pc !in {Top, CheckResult})
    && (m.pc in {WriteStrides, SubmitLock, SubmitWait, SubmitReady} ==> m.room)
  }

  ghost predicate HandshakeInv(s: State) {
    s.ok && WorkerInv(s.oclSlot, s.halt, s.w) && LoopInv(s.oclSlot, s.halt, s.m) && (s.m.pc == Done ==> s.w.pc == Out)
  }

  /** The result in the current slot is about to be checked. */
  ghost predicate AboutToCheck(m: Main) { m.pc == CheckResult || (m.pc == Top && m.done) }

  ghost predicate BatchInv(m: Main, b: Batches) {
    && b.first <= b.next && b.content0 < b.next && b.content1 < b.next
    && (b.next > b.first ==> b.Content(1 - m.slot) == b.next - 1 && b.Content(m.slot) < b.next - 1)
    && (b.next > b.first + 1 ==> b.Content(m.slot) == b.next - 2)
    && (m.busy || m.done || m.pc == CheckResult ==> b.next > b.first)
    && (forall i :: i in b.checked ==> i + 1 < b.next || i < b.first)
    && (forall i :: b.first <= i && i + 1 < b.next ==>
          i in b.checked || (AboutToCheck(m) && i == b.next - 2 && i == b.Content(m.slot)))
    && (m.room && b.next > b.first && m.pc !in {Rekey, Join, Done} ==> m.busy)
  }

  ghost predicate Inv(s: State) { HandshakeInv(s) && BatchInv(s.m, s.b) }

  lemma StartInv()
    ensures Inv(START)
  {
  }

  // ---- Every step keeps it

  lemma HandBackInv(s: State)
    requires HandshakeInv(s) && s.w.pc == Locking
    ensures var n := HandBack(s); HandshakeInv(n) && n.w.pc == Locking && n.w.slot == -1 && !n.w.err
  {
  }

  lemma PickInv(s: State)
    requires HandshakeInv(s) && s.w.pc in {Locking, Ready} && s.w.slot == -1 && !s.w.err
    ensures HandshakeInv(Pick(s))
  {
  }

  lemma WorkerNextInv(s: State, err: bool)
    requires HandshakeInv(s) && s.w.pc in {Locking, Ready, Kernel}
    ensures HandshakeInv(WorkerNext(s, err))
  {
    hide HandBack, Pick;
    if s.w.pc == Locking {
      HandBackInv(s);
      PickInv(HandBack(s));
    } else if s.w.pc == Ready {
      PickInv(s);
    }
  }

  lemma SubmitInv(s: State, choice: nat)
    requires HandshakeInv(s) && s.m.pc in {SubmitLock, SubmitReady}
    ensures HandshakeInv(Submit(s, choice))
  {
  }

  lemma DrainInv(s: State)
    requires HandshakeInv(s) && s.m.pc in {DrainLock, DrainReady}
    ensures HandshakeInv(Drain(s))
  {
  }

  lemma HaltInv(s: State)
    requires HandshakeInv(s)
    ensures s.m.pc == HaltLock ==> HandshakeInv(Halt(WakeWorker(s.(halt := true))))
    ensures s.m.pc == HaltReady ==> HandshakeInv(Halt(s))
  {
  }

  lemma LoopNextInv(s: State, choice: nat)
    requires HandshakeInv(s) && Enabled(s, LoopStep(choice))
    ensures HandshakeInv(LoopNext(s, choice))
  {
    hide Submit, Drain, Halt, WakeWorker;
    if s.m.pc in {SubmitLock, SubmitReady} {
      SubmitInv(s, choice);
    } else if s.m.pc in {DrainLock, DrainReady} {
      DrainInv(s);
    } else if s.m.pc in {HaltLock, HaltReady} {
      HaltInv(s);
    }
  }

  lemma WakesInv(s: State)
    requires HandshakeInv(s)
    ensures s.w.pc == Waiting ==> HandshakeInv(WakeWorker(s))
    ensures LoopWaits(s) ==> HandshakeInv(WakeLoop(s))
  {
  }

  lemma SubmitBatches(s: State, choice: nat)
    requires HandshakeInv(s) && BatchInv(s.m, s.b) && s.m.pc in {SubmitLock, SubmitReady}
    ensures BatchInv(Submit(s, choice).m, Submit(s, choice).b)
  {
    hide WorkerInv;
  }

  lemma LoopBatches(s: State, choice: nat)
    requires HandshakeInv(s) && BatchInv(s.m, s.b) && Enabled(s, LoopStep(choice))
      && s.m.pc !in {SubmitLock, SubmitReady}
    ensures BatchInv(LoopNext(s, choice).m, LoopNext(s, choice).b)
  {
    hide WorkerInv, Submit, Drain, Halt, WakeWorker;
    if s.m.pc in {DrainLock, DrainReady} {
      DrainBatches(s);
    } else if s.m.pc in {HaltLock, HaltReady} {
      HaltBatches(s);
    }
  }

  lemma DrainBatches(s: State)
    requires HandshakeInv(s) && BatchInv(s.m, s.b) && s.m.pc in {DrainLock, DrainReady}
    ensures BatchInv(Drain(s).m, Drain(s).b)
  {
    hide WorkerInv;
  }

  lemma HaltBatches(s: State)
    requires HandshakeInv(s) && BatchInv(s.m, s.b)
    ensures s.m.pc == HaltLock ==> BatchInv(Halt(WakeWorker(s.(halt := true))).m, Halt(WakeWorker(s.(halt := true))).b)
    ensures s.m.pc == HaltReady ==> BatchInv(Halt(s).m, Halt(s).b)
  {
    hide WorkerInv;
  }

  /** The worker does not touch the batches, and wakes the main loop at most. */
  lemma WorkerBatches(s: State, a: Action)
    requires BatchInv(s.m, s.b) && Enabled(s, a) && !a.LoopStep?
    ensures BatchInv(Next(s, a).m, Next(s, a).b)
  {
    hide BatchInv;
    AwakeBatches(s.m, s.b);
  }

  lemma AwakeBatches(m: Main, b: Batches)
    requires BatchInv(m, b)
    ensures BatchInv(m.(pc := Awake(m.pc)), b)
  {
  }

  lemma NextInv(s: State, a: Action)
    requires Inv(s) && Enabled(s, a)
    ensures Inv(Next(s, a))
  {
    hide HandshakeInv, BatchInv, Submit, LoopNext, WorkerNext, WakeWorker, WakeLoop;
    match a
    case WorkerStep(err) =>
      WorkerNextInv(s, err);
      WorkerBatches(s, a);
    case LoopStep(choice) =>
      LoopNextInv(s, choice);
      LoopNextBatches(s, choice);
    case WorkerWakes =>
      WakesInv(s);
      WorkerBatches(s, a);
    case LoopWakes =>
      WakesInv(s);
      WorkerBatches(s, a);
  }

  lemma LoopNextBatches(s: State, choice: nat)
    requires Inv(s) && Enabled(s, LoopStep(choice))
    ensures BatchInv(LoopNext(s, choice).m, LoopNext(s, choice).b)
  {
    hide HandshakeInv, BatchInv, Submit, Enabled;
    if s.m.pc in {SubmitLock, SubmitReady} {
      SubmitBatches(s, choice);
    } else {
      LoopBatches(s, choice);
    }
  }

  // ---- Runs

  /** The states of a run from s. */
  ghost predicate From(s: State, states: seq<State>, run: seq<Action>) {
    && |states| == |run| + 1 && states[0] == s
    && forall i :: 0 <= i < |run| ==> Enabled(states[i], run[i]) && states[i + 1] == Next(states[i], run[i])
  }

  ghost predicate Path(states: seq<State>, run: seq<Action>) {
    From(START, states, run)
  }

  lemma {:induction false} PathInv(states: seq<State>, run: seq<Action>, i: nat)
    requires Path(states, run) && i < |states|
    ensures Inv(states[i])
  {
    if i == 0 {
      StartInv();
    } else {
      PathInv(states, run, i - 1);
      NextInv(states[i - 1], run[i - 1]);
      assert states[i - 1 + 1] == states[i];
    }
  }

  /**
   * In every run: the asserts hold; the strides being written and the result being checked are not of the slot that is
   * being run; the column buffer and the kernel arguments are rewritten only while the worker runs nothing.
   */
  lemma BuffersAreSafe(states: seq<State>, run: seq<Action>, i: nat)
    requires Path(states, run) && i < |states|
    ensures var s := states[i];
      && s.ok
      && (s.m.pc in {WriteStrides, CheckResult} ==> s.oclSlot != s.m.slot && (s.w.pc == Kernel ==> s.w.slot != s.m.slot))
      && (s.m.pc == Rekey ==> s.oclSlot == -1 && s.w.pc != Kernel)
      && (s.m.pc == Done ==> s.w.pc == Out && s.oclSlot == -1 && !s.m.busy)
  {
    PathInv(states, run, i);
  }

  lemma HandBackKeeps(s: State)
    ensures HandBack(s).b == s.b
    ensures HandBack(s).m == if s.w.slot != -1 then s.m.(pc := Awake(s.m.pc)) else s.m
  {
  }

  /** The worker does not touch what belongs to the main loop, and wakes it at most. */
  lemma WorkerKeepsLoop(s: State, a: Action)
    requires Enabled(s, a) && !a.LoopStep?
    ensures Next(s, a).b == s.b && Next(s, a).m in {s.m, s.m.(pc := Awake(s.m.pc))}
  {
    hide LoopNext, HandBack, Awake;
    if a.WorkerStep? && s.w.pc == Locking {
      HandBackKeeps(s);
    }
  }

  /** The batches of a key take turns in the slots, and the first one is in slot 0. */
  lemma {:induction false} SlotsAlternate(states: seq<State>, run: seq<Action>, i: nat)
    requires Path(states, run) && i < |states| && states[i].m.pc != Rekey
    ensures var s := states[i]; s.b.first <= s.b.next && s.m.slot == (s.b.next - s.b.first) % 2
  {
    hide Inv, Next, Enabled;
    var s, a := states[i - 1], run[i - 1];
    PathInv(states, run, i - 1);
    assert states[i - 1 + 1] == states[i] == Next(s, a);
    if s.m.pc != Rekey {
      SlotsAlternate(states, run, i - 1);
    }
    SlotsStep(s, a);
  }

  lemma SlotsStep(s: State, a: Action)
    requires Inv(s) && Enabled(s, a) && Next(s, a).m.pc != Rekey
    requires s.m.pc != Rekey ==> s.m.slot == (s.b.next - s.b.first) % 2
    ensures var n := Next(s, a); n.b.first <= n.b.next && n.m.slot == (n.b.next - n.b.first) % 2
  {
    hide WorkerInv, Submit;
    if !a.LoopStep? {
      WorkerKeepsLoop(s, a);
    } else if s.m.pc in {SubmitLock, SubmitReady} {
      SubmitTurns(s, a.choice);
    }
  }

  lemma SubmitTurns(s: State, choice: nat)
    requires s.m.slot in {0, 1} && s.b.first <= s.b.next && s.m.slot == (s.b.next - s.b.first) % 2
    ensures var n := Submit(s, choice);
      n.b.first <= n.b.next && n.m.slot == (n.b.next - n.b.first) % 2
  {
  }

  /** What a thread may do next depends on nothing but where it is, and waits may end without a signal. */
  lemma NothingIsRefused(s: State, err: bool, choice: nat)
    ensures s.w.pc in {Locking, Ready, Kernel} ==> Enabled(s, WorkerStep(err))
    ensures s.w.pc.Waiting? ==> Enabled(s, WorkerWakes) && Next(s, WorkerWakes) == s.(w := s.w.(pc := Ready))
    ensures s.m.pc !in {SubmitWait, DrainWait, HaltWait, Join, Done} ==> Enabled(s, LoopStep(choice))
    ensures s.m.pc.Join? && s.w.pc.Out? ==> Enabled(s, LoopStep(choice))
    ensures s.m.pc in {SubmitWait, DrainWait, HaltWait} ==> Enabled(s, LoopWakes) && !LoopWaits(Next(s, LoopWakes))
  {
  }

  /** What it means that no assert has failed, assert by assert. */
  lemma AssertsHold(s: State, a: Action)
    requires Enabled(s, a) && Next(s, a).ok
    ensures s.ok
    ensures a.WorkerStep? && s.w.pc == Locking && s.w.slot != -1 ==> s.oclSlot == s.w.slot
    ensures a.LoopStep? && s.m.pc in {SubmitLock, SubmitReady, HaltLock, HaltReady} && s.oclSlot != -1 ==> s.m.busy
    ensures a.LoopStep? && s.m.pc in {DrainLock, DrainReady} && s.oclSlot != -1 ==> s.oclSlot == (s.m.slot + 1) % 2
    ensures a.LoopStep? && s.m.pc == Top && s.m.done ==> !s.m.due
  {
  }

  // ---- The right strides, the right results

  /** The batch whose strides were last written into the stride buffer of a slot, -1 for none. */
  ghost function Strides(states: seq<State>, i: nat, slot: int): int
    requires i < |states|
  {
    if i == 0 then -1
    else if states[i - 1].m.pc == WriteStrides && states[i - 1].m.slot == slot then states[i - 1].b.next
    else Strides(states, i - 1, slot)
  }

  /** The batch whose kernel last ended on the result buffer of a slot, -1 for none. */
  ghost function Result(states: seq<State>, i: nat, slot: int): int
    requires i < |states|
  {
    if i == 0 then -1
    else if states[i - 1].w.pc == Kernel && states[i].w.pc != Kernel && states[i - 1].w.slot == slot then
      states[i - 1].b.Content(slot)
    else Result(states, i - 1, slot)
  }

  /** What is known of the buffers, given what was written into them. */
  ghost predicate BuffersInv(s: State, strides: int -> int, result: int -> int) {
    && (s.oclSlot != -1 ==> strides(s.oclSlot) == s.b.Content(s.oclSlot))
    && (s.m.pc in {SubmitLock, SubmitWait, SubmitReady} ==> strides(s.m.slot) == s.b.next)
    && (forall x :: x in {0, 1} && x != s.oclSlot ==> result(x) == s.b.Content(x))
    && (s.w.pc == Locking && s.w.slot != -1 ==> result(s.w.slot) == s.b.Content(s.w.slot))
  }

  /** Given what a step writes into them. */
  ghost predicate Written(s: State, n: State, f: int -> int, g: int -> int, r: int -> int, t: int -> int) {
    && (forall x :: g(x) == if s.m.pc == WriteStrides && s.m.slot == x then s.b.next else f(x))
    && (forall x :: t(x) == if s.w.pc == Kernel && n.w.pc != Kernel && s.w.slot == x then s.b.Content(x) else r(x))
  }

  lemma SubmitBuffers(s: State, choice: nat, f: int -> int, g: int -> int, r: int -> int, t: int -> int)
    requires Inv(s) && s.m.pc in {SubmitLock, SubmitReady} && BuffersInv(s, f, r)
    requires Written(s, Submit(s, choice), f, g, r, t)
    ensures BuffersInv(Submit(s, choice), g, t)
  {
    hide BatchInv;
  }

  lemma LoopBuffers(s: State, choice: nat, f: int -> int, g: int -> int, r: int -> int, t: int -> int)
    requires Inv(s) && Enabled(s, LoopStep(choice)) && s.m.pc !in {SubmitLock, SubmitReady} && BuffersInv(s, f, r)
    requires Written(s, LoopNext(s, choice), f, g, r, t)
    ensures BuffersInv(LoopNext(s, choice), g, t)
  {
    hide BatchInv, WorkerInv, Submit;
  }

  lemma WorkerBuffers(s: State, a: Action, f: int -> int, g: int -> int, r: int -> int, t: int -> int)
    requires Inv(s) && Enabled(s, a) && !a.LoopStep? && BuffersInv(s, f, r) && Written(s, Next(s, a), f, g, r, t)
    ensures BuffersInv(Next(s, a), g, t)
  {
    hide BatchInv, LoopNext;
  }

  lemma BuffersStep(s: State, a: Action, f: int -> int, g: int -> int, r: int -> int, t: int -> int)
    requires Inv(s) && Enabled(s, a) && BuffersInv(s, f, r) && Written(s, Next(s, a), f, g, r, t)
    ensures BuffersInv(Next(s, a), g, t)
  {
    hide Inv, BuffersInv, Written, LoopNext, WorkerNext, Submit;
    if !a.LoopStep? {
      WorkerBuffers(s, a, f, g, r, t);
    } else if s.m.pc in {SubmitLock, SubmitReady} {
      assert Next(s, a) == Submit(s, a.choice) by {
        SubmitNext(s, a.choice);
      }
      SubmitBuffers(s, a.choice, f, g, r, t);
    } else {
      LoopBuffers(s, a.choice, f, g, r, t);
    }
  }

  lemma SubmitNext(s: State, choice: nat)
    requires s.m.pc in {SubmitLock, SubmitReady}
    ensures LoopNext(s, choice) == Submit(s, choice)
  {
    hide Submit;
  }

  lemma StartBuffers(strides: int -> int, result: int -> int)
    requires forall x :: strides(x) == -1 && result(x) == -1
    ensures BuffersInv(START, strides, result)
  {
  }

  lemma {:induction false} BuffersInRun(states: seq<State>, run: seq<Action>, i: nat)
    requires Path(states, run) && i < |states|
    ensures BuffersInv(states[i], x => Strides(states, i, x), x => Result(states, i, x))
  {
    hide Inv, BuffersInv, Next, Enabled;
    var g, t := x => Strides(states, i, x), x => Result(states, i, x);
    if i == 0 {
      StartBuffers(g, t);
    } else {
      var f, r := x => Strides(states, i - 1, x), x => Result(states, i - 1, x);
      BuffersInRun(states, run, i - 1);
      PathInv(states, run, i - 1);
      assert states[i - 1 + 1] == states[i];
      BuffersStep(states[i - 1], run[i - 1], f, g, r, t);
    }
  }

  /**
   * In every run: what is submitted, and what is run, has the strides that were written for just that batch, and the
   * result being checked is that of the batch that was submitted last in its slot, whose kernel has ended.
   */
  lemma BuffersAreRight(states: seq<State>, run: seq<Action>, i: nat)
    requires Path(states, run) && i < |states|
    ensures var s := states[i];
      && (s.w.pc == Kernel ==> Strides(states, i, s.w.slot) == s.b.Content(s.w.slot) >= 0)
      && (s.m.pc in {SubmitLock, SubmitWait, SubmitReady} ==> Strides(states, i, s.m.slot) == s.b.next)
      && (s.m.pc == CheckResult ==> Result(states, i, s.m.slot) == s.b.Content(s.m.slot))
  {
    BuffersInRun(states, run, i);
    PathInv(states, run, i);
  }

  /** Nobody waits for nothing: a waiting main loop has a worker that will wake it, and the other way round. */
  lemma NobodyStuck(states: seq<State>, run: seq<Action>, i: nat)
    requires Path(states, run) && i < |states|
    ensures var s := states[i];
      && (LoopWaits(s) ==> s.oclSlot != -1 && s.w.pc in {Locking, Ready, Kernel})
      && (s.w.pc == Waiting ==> s.oclSlot == -1 && !s.halt && !LoopWaits(s) && s.m.pc !in {Join, Done})
      && (s.m.pc == Join ==> s.halt && s.w.pc in {Locking, Ready, Out})
  {
    PathInv(states, run, i);
  }

  /** How many steps the worker is away from giving its slot back. */
  ghost function Distance(w: Worker): nat {
    match w.pc
    case Locking => if w.slot != -1 then 1 else 3
    case Kernel => 2
    case _ => 3
  }

  /** While the main loop waits, every step of the worker wakes it or brings that nearer. */
  lemma WorkerAnswers(s: State, err: bool)
    requires HandshakeInv(s) && LoopWaits(s)
    ensures Enabled(s, WorkerStep(err)) && Distance(s.w) <= 3
    ensures var n := Next(s, WorkerStep(err)); !LoopWaits(n) || Distance(n.w) < Distance(s.w)
  {
  }

  /**
   * When a new key is made, and when everything ends, all batches since the last new key have been checked but the
   * last.
   */
  lemma AllButTheLast(states: seq<State>, run: seq<Action>, i: nat)
    requires Path(states, run) && i < |states| && states[i].m.pc in {Rekey, Done}
    ensures var b := states[i].b;
      forall k :: b.first <= k < b.next ==> (k in b.checked <==> k + 1 < b.next)
  {
    PathInv(states, run, i);
  }

  /**
   * What is checked: the batch before the last, or, when only one has been submitted under this key, whatever the other
   * slot still holds from before.
   */
  lemma CheckedBatch(states: seq<State>, run: seq<Action>, i: nat)
    requires Path(states, run) && i < |states| && states[i].m.pc == CheckResult
    ensures var b := states[i].b; var k := b.Content(states[i].m.slot);
      b.first < b.next && if b.next == b.first + 1 then k < b.first else k == b.next - 2 >= b.first
  {
    PathInv(states, run, i);
  }

  /** Only the check of a result adds to what was checked, and only a new key starts a new count. */
  lemma BatchesStep(s: State, a: Action)
    requires Inv(s) && Enabled(s, a)
    ensures var n := Next(s, a);
      && s.b.first <= n.b.first && s.b.next <= n.b.next
      && (s.m.pc == Rekey ==> (n.m.pc == Rekey && n.b == s.b) || n.b.first == s.b.next)
      && (forall k :: k in n.b.checked && k !in s.b.checked ==> s.m.pc == CheckResult && k == s.b.Content(s.m.slot))
  {
    hide HandshakeInv, WorkerNext;
    if !a.LoopStep? {
      WorkerKeepsLoop(s, a);
    }
  }

  /** Once a new key is made, its predecessor's last batch k belongs to a key of the past. */
  lemma {:induction false} KeyIsPast(states: seq<State>, run: seq<Action>, j: nat, i: nat)
    requires Path(states, run) && j <= i < |states| && states[j].m.pc == Rekey
    ensures (states[i].m.pc == Rekey && states[i].b == states[j].b) || states[i].b.first >= states[j].b.next
  {
    hide Inv, Next, Enabled;
    if i > j {
      KeyIsPast(states, run, j, i - 1);
      PathInv(states, run, i - 1);
      BatchesStep(states[i - 1], run[i - 1]);
      assert states[i - 1 + 1] == states[i];
    }
  }

  /**
   * The last batch of a key, unchecked when the next key is made, is checked later only if some later key has submitted
   * exactly one batch: then the stale result is taken for one of that key.
   */
  lemma {:induction false} FateOfTheLast(states: seq<State>, run: seq<Action>, j: nat, i: nat, k: nat) returns (h: nat)
    requires Path(states, run) && j <= i < |states| && states[j].m.pc == Rekey
    requires states[j].b.first <= k && k + 1 == states[j].b.next && k in states[i].b.checked
    ensures j <= h < i && states[h].m.pc == CheckResult && k == states[h].b.Content(states[h].m.slot)
    ensures k < states[h].b.first && states[h].b.next == states[h].b.first + 1
  {
    hide Inv, Next, Enabled;
    AllButTheLast(states, run, j);
    assert i > j;
    if k in states[i - 1].b.checked {
      h := FateOfTheLast(states, run, j, i - 1, k);
    } else {
      h := i - 1;
      PathInv(states, run, h);
      BatchesStep(states[h], run[h]);
      assert states[h + 1] == states[i];
      KeyIsPast(states, run, j, h);
      CheckedBatch(states, run, h);
    }
  }

  // ---- Which batch the offset stands for

  /**
   * The checks since the last new key: as long as nothing is found, each moves the offset from the key, vxc_delta, by
   * one batch.
   */
  ghost function Checks(states: seq<State>, i: nat): nat
    requires i < |states|
  {
    if i == 0 then 0 else ChecksAfter(states[i - 1].m.pc, states[i].m.pc, Checks(states, i - 1))
  }

  ghost function ChecksAfter(was: LoopPc, now: LoopPc, count: nat): nat {
    if was == Rekey && now != Rekey then 0 else if was == CheckResult && now != CheckResult then count + 1 else count
  }

  ghost predicate ChecksInv(m: Main, b: Batches, count: nat) {
    var n := b.next - b.first;
    m.pc !in {Rekey, Join, Done} ==>
      && (AboutToCheck(m) && m.busy ==> count == n - 2)
      && (AboutToCheck(m) && !m.busy ==> count == n - 1)
      && (!AboutToCheck(m) && m.busy ==> count == n - 1)
      && (n == 0 ==> count == 0)
  }

  lemma ChecksStep(s: State, a: Action, count: nat)
    requires Inv(s) && Enabled(s, a) && ChecksInv(s.m, s.b, count)
    ensures var n := Next(s, a); ChecksInv(n.m, n.b, ChecksAfter(s.m.pc, n.m.pc, count))
  {
    hide WorkerInv, Submit;
    if !a.LoopStep? {
      WorkerKeepsLoop(s, a);
    } else if s.m.pc in {SubmitLock, SubmitReady} {
      SubmitChecks(s, a.choice, count);
    }
  }

  lemma SubmitChecks(s: State, choice: nat, count: nat)
    requires Inv(s) && s.m.pc in {SubmitLock, SubmitReady} && ChecksInv(s.m, s.b, count)
    ensures var n := Submit(s, choice); ChecksInv(n.m, n.b, ChecksAfter(s.m.pc, n.m.pc, count))
  {
    hide WorkerInv;
  }

  lemma {:induction false} ChecksInRun(states: seq<State>, run: seq<Action>, i: nat)
    requires Path(states, run) && i < |states|
    ensures ChecksInv(states[i].m, states[i].b, Checks(states, i))
  {
    hide Inv, Next, Enabled, ChecksAfter;
    if i > 0 {
      ChecksInRun(states, run, i - 1);
      PathInv(states, run, i - 1);
      assert states[i - 1 + 1] == states[i];
      ChecksStep(states[i - 1], run[i - 1], Checks(states, i - 1));
    }
  }

  /**
   * In every run: the offset at a check is that of the batch checked exactly when the other slot has been submitted and
   * not been waited for. At the check after the last batch of a key has been waited for, it is that of this last batch,
   * while the result looked at is that of the one before.
   */
  lemma OffsetOfCheck(states: seq<State>, run: seq<Action>, i: nat)
    requires Path(states, run) && i < |states| && states[i].m.pc == CheckResult
    ensures var s, c := states[i], Checks(states, i);
      && (c == s.b.Content(s.m.slot) - s.b.first <==> s.m.busy)
      && (!s.m.busy ==> c == s.b.next - 1 - s.b.first)
  {
    ChecksInRun(states, run, i);
    PathInv(states, run, i);
  }

  // ---- When no more is submitted

  /** An error has been reported, or will be before the slot is free again. */
  ghost predicate Failed(s: State) { s.halt || s.w.err }

  lemma FailedStays(s: State, a: Action)
    requires HandshakeInv(s) && Enabled(s, a) && Failed(s)
    ensures Failed(Next(s, a)) && Next(s, a).b.next == s.b.next
  {
  }

  lemma FailsNow(s: State)
    requires Enabled(s, WorkerStep(true)) && s.w.pc == Kernel
    ensures Failed(Next(s, WorkerStep(true))) && Next(s, WorkerStep(true)).b.next == s.b.next
  {
  }

  /** After a kernel that fails, and after a halt, no batch is submitted any more. */
  lemma {:induction false} NothingAfterAnError(states: seq<State>, run: seq<Action>, j: nat, i: nat)
    requires Path(states, run) && j < i < |states|
    requires states[j].halt || (states[j].w.pc == Kernel && run[j] == WorkerStep(true))
    ensures Failed(states[i]) && states[i].b.next == states[j].b.next
  {
    hide BatchInv, HandshakeInv, Next, Enabled;
    PathInv(states, run, i - 1);
    assert states[i - 1 + 1] == states[i];
    if i - 1 > j {
      NothingAfterAnError(states, run, j, i - 1);
    }
    if Failed(states[i - 1]) {
      FailedStays(states[i - 1], run[i - 1]);
    } else {
      FailsNow(states[j]);
    }
  }

  lemma NoRoomStays(s: State, a: Action)
    requires Inv(s) && Enabled(s, a) && !s.m.room && s.m.pc != Rekey
    ensures !Next(s, a).m.room && Next(s, a).b.next == s.b.next
  {
    hide WorkerInv, BatchInv;
  }

  /** There is room for another batch until something is found or the key is used up, */
  lemma NoRoomAfter(s: State, choice: nat)
    requires Inv(s) && Enabled(s, LoopStep(choice)) && s.m.pc in {Rekey, CheckResult, SubmitLock, SubmitReady}
    ensures var n := LoopNext(s, choice);
      n.m.pc !in {SubmitWait, HaltLock} ==> (n.m.room <==> choice == 0 && (s.m.pc == Rekey || s.m.room))
  {
  }

  /** and without room nothing is submitted until there is a new key. */
  lemma {:induction false} NothingWithoutRoom(states: seq<State>, run: seq<Action>, j: nat, i: nat) returns (h: nat)
    requires Path(states, run) && j <= i < |states| && !states[j].m.room && states[i].b.next > states[j].b.next
    ensures j <= h < i && states[h].m.pc == Rekey && states[h].b.next == states[j].b.next
    decreases i - j
  {
    hide Next, Enabled, Inv;
    if states[j].m.pc == Rekey {
      h := j;
      assert i != j;
    } else {
      assert i != j;
      PathInv(states, run, j);
      NoRoomStays(states[j], run[j]);
      assert states[j + 1] == Next(states[j], run[j]);
      h := NothingWithoutRoom(states, run, j + 1, i);
    }
  }

  lemma DueStays(s: State, a: Action)
    requires Inv(s) && Enabled(s, a) && s.m.pc != Rekey
    requires s.m.due || (s.m.pc == CheckResult && a.LoopStep? && a.choice != 0)
    ensures Next(s, a).m.due && Next(s, a).m.pc != CheckResult
  {
    hide WorkerInv, BatchInv;
  }

  /** After a find, no result is checked before there is a new key. */
  lemma {:induction false} NoCheckAfterAFind(states: seq<State>, run: seq<Action>, j: nat, i: nat) returns (h: nat)
    requires Path(states, run) && j < i < |states| && states[i].m.pc == CheckResult
    requires states[j].m.due || (states[j].m.pc == CheckResult && run[j].LoopStep? && run[j].choice != 0)
    ensures j <= h < i && states[h].m.pc == Rekey
    decreases i - j
  {
    hide Next, Enabled, Inv;
    if states[j].m.pc == Rekey {
      h := j;
    } else {
      PathInv(states, run, j);
      DueStays(states[j], run[j]);
      assert states[j + 1] == Next(states[j], run[j]);
      h := NoCheckAfterAFind(states, run, j + 1, i);
    }
  }

  // ---- The end

  /** How far the main loop is from the end, once a halt is asked for. */
  ghost function Phase(pc: LoopPc): nat {
    match pc
    case Done => 0
    case Join => 1
    case HaltLock => 3
    case HaltWait => 2
    case HaltReady => 2
    case Decide => 4
    case CheckResult => 5
    case Top => 6
    case Rekey => 7
    case DrainLock => 8
    case DrainWait => 8
    case DrainReady => 8
    case WriteStrides => 10
    case _ => 9
  }

  /** The worker is this many steps away from going. */
  ghost function ToGo(w: Worker): nat {
    if w.pc == Out then 0 else Distance(w)
  }

  /** Whether a batch is about to be submitted. */
  ghost function InHand(s: State): nat {
    if s.m.pc in {WriteStrides, SubmitLock, SubmitWait, SubmitReady} then 1 else 0
  }

  ghost predicate Nearer(s: State, n: State) {
    var p, q := Phase(s.m.pc), Phase(n.m.pc);
    var b, c := if s.oclSlot != -1 then 1 else 0, if n.oclSlot != -1 then 1 else 0;
    var l, k := if LoopWaits(s) then 0 else 1, if LoopWaits(n) then 0 else 1;
    q < p || (q == p && (c < b || (c == b && (k < l || (k == l && ToGo(n.w) < ToGo(s.w))))))
  }

  lemma GoesOn(s: State) returns (a: Action)
    requires Inv(s) && s.m.pc != Done
    ensures Enabled(s, a) && Inv(Next(s, a)) && Nearer(s, Next(s, a))
    ensures Next(s, a).b.next + InHand(Next(s, a)) <= s.b.next + InHand(s)
  {
    if LoopWaits(s) || (s.m.pc == Join && s.w.pc != Out) {
      a := WorkerStep(false);
      WorkerGoesOn(s);
    } else {
      a := LoopStep(1);
      LoopGoesOn(s);
    }
    NextInv(s, a);
  }

  lemma WorkerGoesOn(s: State)
    requires Inv(s) && (LoopWaits(s) || (s.m.pc == Join && s.w.pc != Out))
    ensures Enabled(s, WorkerStep(false)) && Nearer(s, Next(s, WorkerStep(false)))
    ensures Next(s, WorkerStep(false)).b.next + InHand(Next(s, WorkerStep(false))) <= s.b.next + InHand(s)
  {
    hide BatchInv;
  }

  lemma LoopGoesOn(s: State)
    requires Inv(s) && s.m.pc != Done && !LoopWaits(s) && (s.m.pc == Join ==> s.w.pc == Out)
    ensures Enabled(s, LoopStep(1)) && Nearer(s, Next(s, LoopStep(1)))
    ensures Next(s, LoopStep(1)).b.next + InHand(Next(s, LoopStep(1))) <= s.b.next + InHand(s)
  {
    hide BatchInv, WorkerInv;
  }

  /**
   * From wherever a run is, everything ends when a halt is asked for: both threads go, and at most the batch that is in
   * hand is still submitted.
   */
  lemma {:induction false} ItEnds(s: State) returns (states: seq<State>, run: seq<Action>)
    requires Inv(s)
    ensures From(s, states, run)
    ensures var n := states[|run|];
      && n.m.pc == Done && n.w.pc == Out && n.oclSlot == -1 && n.ok
      && n.b.next <= s.b.next + if s.m.pc in {WriteStrides, SubmitLock, SubmitWait, SubmitReady} then 1 else 0
    decreases Phase(s.m.pc), if s.oclSlot != -1 then 1 else 0, if LoopWaits(s) then 0 else 1, ToGo(s.w)
  {
    if s.m.pc == Done {
      states, run := [s], [];
    } else {
      hide Inv, Next, Enabled, From;
      var a := GoesOn(s);
      var rest, todo := ItEnds(Next(s, a));
      states, run := [s] + rest, [a] + todo;
      OneMore(s, a, rest, todo);
      assert states[|run|] == rest[|todo|];
    }
  }

  lemma OneMore(s: State, a: Action, states: seq<State>, run: seq<Action>)
    requires Enabled(s, a) && From(Next(s, a), states, run)
    ensures From(s, [s] + states, [a] + run)
  {
    hide Enabled, Next;
  }

  // ---- A run in which it happens

  ghost predicate Reachable(s: State) {
    exists states, run :: Path(states, run) && s == states[|run|]
  }

  lemma StartReachable()
    ensures Reachable(START)
  {
    var run: seq<Action> := [];
    assert Path([START], run) && [START][|run|] == START;
  }

  lemma Go(s: State, a: Action) returns (n: State)
    requires Reachable(s) && Enabled(s, a)
    ensures n == Next(s, a) && Reachable(n)
  {
    n := Next(s, a);
    var states, run :| Path(states, run) && s == states[|run|];
    assert Path(states + [n], run + [a]);
    assert (states + [n])[|run + [a]|] == n;
  }

  /** Nothing is run or about to be checked, and there are points left. */
  ghost predicate Idle(s: State) {
    && s.oclSlot == -1 && !s.halt && s.w == Worker(Waiting, -1, false)
    && s.m.pc == Top && s.m.slot in {0, 1} && !s.m.done && s.m.room && !s.m.due
  }

  /** One batch is submitted and run; whether there are points left for another one is up to `room`. */
  lemma RunBatch(s: State, room: bool) returns (n: State)
    requires Reachable(s) && Idle(s)
    ensures Reachable(n)
      && n == s.(b := s.b.Submitted(s.m.slot), m := Main(Top, 1 - s.m.slot, true, s.m.busy, room, false))
  {
    hide Reachable;
    n := Go(s, LoopStep(0));
    n := Go(n, LoopStep(0));
    n := Go(n, LoopStep(0));
    assert n == s.(m := s.m.(pc := SubmitLock));
    n := Go(n, LoopStep(if room then 0 else 1));
    assert n == State(s.m.slot, false, Worker(Ready, -1, false), Main(Top, 1 - s.m.slot, true, s.m.busy, room, false),
                      s.b.Submitted(s.m.slot), s.ok);
    n := Go(n, WorkerStep(false));
    n := Go(n, WorkerStep(false));
    n := Go(n, WorkerStep(false));
  }

  /** Two batches under the first key, of which the second is not checked when the next key is made. */
  lemma FirstKey() returns (s: State)
    ensures Reachable(s) && s.m.pc == Rekey && s.b == Batches(0, 2, 0, 1, {0})
    ensures s.oclSlot == -1 && !s.halt && s.w == Worker(Waiting, -1, false)
  {
    hide Reachable;
    StartReachable();
    s := Go(START, WorkerStep(false));
    s := Go(s, LoopStep(0));
    assert s == State(-1, false, Worker(Waiting, -1, false),
                      Main(Top, 0, false, false, true, false), Batches(0, 0, -1, -1, {}), true);
    s := RunBatch(s, true);
    s := RunBatch(s, false);
    assert s == State(-1, false, Worker(Waiting, -1, false),
                      Main(Top, 0, true, true, false, false), Batches(0, 2, 0, 1, {}), true);
    s := Go(s, LoopStep(0));
    s := Go(s, LoopStep(1));
    s := Go(s, LoopStep(0));
    s := Go(s, LoopStep(0));
  }

  /** One batch under the second key: the unchecked one of the first key is checked in its place. */
  lemma StaleCheck() returns (s: State)
    ensures Reachable(s) && s.b.first == 2 && s.b.next == 3 && s.b.checked == {0, 1}
  {
    hide Reachable;
    s := FirstKey();
    s := Go(s, LoopStep(0));
    s := RunBatch(s, false);
    assert s == State(-1, false, Worker(Waiting, -1, false),
                      Main(Top, 1, true, false, false, false), Batches(2, 3, 2, 1, {0}), s.ok);
    s := Go(s, LoopStep(0));
    s := Go(s, LoopStep(0));
    s := Go(s, LoopStep(0));
    s := Go(s, LoopStep(0));
    s := Go(s, LoopStep(0));
  }
}
