/**
  The timer of src/bas/proc/dbgthread.c: controllers that start, update and stop it, and timer
  threads, interleaved one shared access at a time. The source's only controller is its keyboard
  thread; the model has any number, and shows which of them may stop the timer.
 */
module TimerProtocol {
  import opened CText
  import opened TimerCadence

  type Id = nat

  datatype Opts = Opts(interval: int, stackdump: bool, health: bool, dumpFd: bool, file: string)

  /** struct timer_context, without its thread handle: a context's thread has the context's id. */
  datatype Context = Context(quit: bool, opts: Opts, counter: nat)

  datatype Owner = Unlocked | HeldByController(i: nat) | HeldByTimer(t: Id)

  /** Where a controller is; the comment names the next thing it does. */
  datatype ControllerPc =
    | Idle
    | StartLock(opts: Opts)            // pthread_mutex_lock
    | StartInside(opts: Opts)          // test s_timer_ctx; update, or calloc and fill
    | StartCreate(ctx: Id)             // pthread_create
    | StartPublish(ctx: Id)            // s_timer_ctx = ctx
    | Leaving                          // pthread_mutex_unlock
    | StopLock                         // pthread_mutex_lock
    | StopInside                       // test s_timer_ctx; quit = 1
    | StopUnlock                       // pthread_mutex_unlock
    | StopJoin                         // pthread_join(s_timer_ctx->thread)
    | StopRelock                       // pthread_mutex_lock
    | StopFree                         // free(s_timer_ctx); s_timer_ctx = NULL

  datatype TimerPc =
    | Top                              // while (!ctx->quit)
    | Sleep                            // nanosleep
    | Check                            // if (ctx->quit) break
    | WaitLock                         // pthread_mutex_lock
    | Read                             // copy ctx->opts
    | Unlock                           // pthread_mutex_unlock
    | Work                             // accumulate; maybe ctx->counter++
    | Act                              // what a fire does: reads ctx->counter and the file name
    | Exited

  /**
    A timer thread with its local variables. `polls` and `late` are history: the interval in force
    at each completed poll, and the number of fires after quit was set.
   */
  datatype Timer = Timer(pc: TimerPc, accumulated: int, interval: int, polls: seq<int>, late: nat)

  datatype State = State(
    heap: map<Id, Context>,            // allocated contexts
    nextId: Id,
    current: Option<Id>,               // s_timer_ctx
    mutex: Owner,
    controllers: seq<ControllerPc>,
    threads: map<Id, Timer>,           // threads created and not yet joined
    fault: bool)                       // NULL or freed context used, or a thread joined twice

  datatype Choice = CallStart(opts: Opts) | CallStop | Continue(ok: bool, temp: string)

  datatype Action = Controller(i: nat, choice: Choice) | TimerStep(t: Id)

  function Init(n: nat): State {
    State(map[], 0, None, Unlocked, seq(n, _ => Idle), map[], false)
  }

  function Effective(interval: int): int {
    if interval > 0 then interval else DEFAULT_INTERVAL
  }

  /** A new context's options; `temp` is the mkstemp name, "" if there is none. */
  function InitialOpts(o: Opts, temp: string): Opts {
    o.(interval := Effective(o.interval), file := if o.file == "" && o.stackdump then temp else o.file)
  }

  /** Options of a running timer after an update: an empty file name keeps the old one. */
  function UpdatedOpts(was: Opts, o: Opts): Opts {
    o.(interval := Effective(o.interval), file := if o.file == "" then was.file else o.file)
  }

  predicate Enabled(s: State, a: Action) {
    match a
    case TimerStep(t) =>
      t in s.threads && s.threads[t].pc != Exited && (s.threads[t].pc == WaitLock ==> s.mutex == Unlocked)
    case Controller(i, choice) =>
      && i < |s.controllers|
      && (s.controllers[i] == Idle <==> !choice.Continue?)
      && match s.controllers[i]
         case StartLock(_) => s.mutex == Unlocked
         case StopLock => s.mutex == Unlocked
         case StopRelock => s.mutex == Unlocked
         case StopJoin => JoinFaults(s) || s.threads[s.current.value].pc == Exited
         case _ => true
  }

  predicate JoinFaults(s: State) {
    s.current.None? || s.current.value !in s.heap || s.current.value !in s.threads
  }

  function Do(s: State, a: Action): State
    requires Enabled(s, a)
  {
    match a
    case TimerStep(t) => DoTimer(s, t)
    case Controller(i, choice) => DoController(s, i, choice)
  }

  function At(s: State, i: nat, pc: ControllerPc): State
    requires i < |s.controllers|
  {
    s.(controllers := s.controllers[i := pc])
  }

  function DoController(s: State, i: nat, choice: Choice): State
    requires Enabled(s, Controller(i, choice))
  {
    match s.controllers[i]
    case Idle => At(s, i, if choice.CallStart? then StartLock(choice.opts) else StopLock)
    case StartLock(o) => At(s.(mutex := HeldByController(i)), i, StartInside(o))
    case StartInside(o) =>
      if s.current.Some? then
        var x := s.current.value;
        if x !in s.heap then At(s.(fault := true), i, Leaving)
        else At(s.(heap := s.heap[x := s.heap[x].(opts := UpdatedOpts(s.heap[x].opts, o))]), i, Leaving)
      else if !choice.ok then At(s, i, Leaving)
      else
        var x := s.nextId;
        At(s.(heap := s.heap[x := Context(false, InitialOpts(o, choice.temp), 0)], nextId := x + 1), i, StartCreate(x))
    case StartCreate(x) =>
      if choice.ok then At(s.(threads := s.threads[x := Timer(Top, 0, 0, [], 0)]), i, StartPublish(x))
      else At(s.(heap := s.heap - {x}), i, Leaving)
    case StartPublish(x) => At(s.(current := Some(x)), i, Leaving)
    case Leaving => At(s.(mutex := Unlocked), i, Idle)
    case StopLock => At(s.(mutex := HeldByController(i)), i, StopInside)
    case StopInside =>
      if s.current.None? then At(s, i, Leaving)
      else
        var x := s.current.value;
        if x !in s.heap then At(s.(fault := true), i, Leaving)
        else At(s.(heap := s.heap[x := s.heap[x].(quit := true)]), i, StopUnlock)
    case StopUnlock => At(s.(mutex := Unlocked), i, StopJoin)
    case StopJoin =>
      if JoinFaults(s) then At(s.(fault := true), i, StopRelock)
      else At(s.(threads := s.threads - {s.current.value}), i, StopRelock)
    case StopRelock => At(s.(mutex := HeldByController(i)), i, StopFree)
    case StopFree =>
      if s.current.None? || s.current.value !in s.heap then At(s.(fault := true), i, Leaving)
      else At(s.(heap := s.heap - {s.current.value}, current := None), i, Leaving)
  }

  function Move(s: State, t: Id, timer: Timer): State {
    s.(threads := s.threads[t := timer])
  }

  function DoTimer(s: State, t: Id): State
    requires Enabled(s, TimerStep(t))
  {
    var me := s.threads[t];
    if me.pc.Sleep? then Move(s, t, me.(pc := Check))
    else if me.pc.WaitLock? then Move(s.(mutex := HeldByTimer(t)), t, me.(pc := Read))
    else if me.pc.Unlock? then Move(s.(mutex := Unlocked), t, me.(pc := Work))
    else if t !in s.heap then Move(s.(fault := true), t, me.(pc := Exited))
    else if me.pc.Top? then Move(s, t, me.(pc := if s.heap[t].quit then Exited else Sleep))
    else if me.pc.Check? then Move(s, t, me.(pc := if s.heap[t].quit then Exited else WaitLock))
    else if me.pc.Read? then Move(s, t, me.(interval := s.heap[t].opts.interval, pc := Unlock))
    else if me.pc.Work? then DoPoll(s, t)
    else Move(s, t, me.(pc := Top))
  }

  /** The rest of a poll: accumulate, and fire if the interval is reached. */
  function DoPoll(s: State, t: Id): State
    requires t in s.threads && t in s.heap
  {
    var me, ctx := s.threads[t], s.heap[t];
    var interval := Effective(me.interval);
    var polled := me.(interval := interval, polls := me.polls + [interval]);
    if me.accumulated + POLL_MS < interval then
      Move(s, t, polled.(accumulated := me.accumulated + POLL_MS, pc := Top))
    else
      Move(s.(heap := s.heap[t := ctx.(counter := ctx.counter + 1)]), t,
           polled.(accumulated := 0, late := me.late + (if ctx.quit then 1 else 0), pc := Act))
  }

  // ---------------------------------------------------------------------------
  // Runs
  // ---------------------------------------------------------------------------

  /** `run` can be executed from `s`, one action after another. */
  predicate Executable(s: State, run: seq<Action>)
    decreases run
  {
    run == [] || (Enabled(s, run[0]) && Executable(Do(s, run[0]), run[1..]))
  }

  function After(s: State, run: seq<Action>): State
    requires Executable(s, run)
    decreases run
  {
    if run == [] then s else After(Do(s, run[0]), run[1..])
  }

  // ---------------------------------------------------------------------------
  // The invariant, with any number of controllers of which one stops the timer
  // ---------------------------------------------------------------------------

  predicate HoldsMutex(pc: ControllerPc) {
    !(pc.Idle? || pc.StartLock? || pc.StopLock? || pc.StopJoin? || pc.StopRelock?)
  }

  /** Inside stop_timer_thread. */
  predicate InStop(pc: ControllerPc) {
    pc.StopLock? || pc.StopInside? || pc.StopUnlock? || pc.StopJoin? || pc.StopRelock? || pc.StopFree?
  }

  /** What is under way: a context being created or published, or quit and perhaps joined. */
  datatype Phase = Settled | Creating(ctx: Id) | Publishing(ctx: Id) | Quitting(joined: bool)

  function PcOf(s: State, i: nat): ControllerPc {
    if i < |s.controllers| then s.controllers[i] else Idle
  }

  function Holder(s: State): ControllerPc {
    if s.mutex.HeldByController? then PcOf(s, s.mutex.i) else Idle
  }

  function PhaseOf(holder: ControllerPc, stopper: ControllerPc): Phase {
    match holder
    case StartCreate(x) => Creating(x)
    case StartPublish(x) => Publishing(x)
    case _ =>
      if stopper.StopUnlock? || stopper.StopJoin? then Quitting(false)
      else if stopper.StopRelock? || stopper.StopFree? then Quitting(true)
      else Settled
  }

  /** The phase that `stopper`, the one controller that stops the timer, and the mutex's holder are in. */
  function Current(s: State, stopper: nat): Phase {
    PhaseOf(Holder(s), PcOf(s, stopper))
  }

  /** Which contexts are allocated, which threads are unjoined and what s_timer_ctx is. */
  ghost predicate Ownership(s: State, phase: Phase) {
    match phase
    case Creating(x) => s.current == None && s.heap.Keys == {x} && s.heap[x].counter == 0 && s.threads.Keys == {}
    case Publishing(x) => s.current == None && s.heap.Keys == {x} == s.threads.Keys
    case Quitting(joined) =>
      && s.current.Some? && s.heap.Keys == {s.current.value}
      && s.threads.Keys == if joined then {} else s.heap.Keys
    case Settled =>
      s.heap.Keys == s.threads.Keys == if s.current.Some? then {s.current.value} else {}
  }

  ghost predicate PcsInv(s: State, stopper: nat) {
    && (forall i :: 0 <= i < |s.controllers| ==> (HoldsMutex(s.controllers[i]) <==> s.mutex == HeldByController(i)))
    && (forall i :: 0 <= i < |s.controllers| && InStop(s.controllers[i]) ==> i == stopper)
    && (s.mutex.HeldByController? ==> s.mutex.i < |s.controllers|)
    && (Holder(s).StartCreate? || Holder(s).StartPublish? ==> PhaseOf(Idle, PcOf(s, stopper)) == Settled)
  }

  ghost predicate TimersHold(s: State) {
    && (forall t :: t in s.threads ==>
          (s.mutex == HeldByTimer(t) <==> s.threads[t].pc.Read? || s.threads[t].pc.Unlock?))
    && (s.mutex.HeldByTimer? ==> s.mutex.t in s.threads)
  }

  /** What a timer thread's history says about its context. */
  ghost predicate TimerInv(timer: Timer, ctx: Context) {
    && timer.accumulated == Accumulated(timer.polls)
    && ctx.counter == Fires(timer.polls)
    && timer.late <= 1
    && (!ctx.quit ==> timer.late == 0)
    && (timer.late == 1 ==> timer.pc.Act? || timer.pc.Top? || timer.pc.Exited?)
    && (timer.pc.Exited? ==> ctx.quit)
  }

  /** Contexts and threads, in a given phase. */
  ghost predicate DataInv(s: State, phase: Phase) {
    && !s.fault
    && Ownership(s, phase)
    && (forall x :: x in s.heap ==> x < s.nextId && (s.heap[x].quit <==> phase.Quitting?))
    && (forall t :: t in s.threads ==> t in s.heap && TimerInv(s.threads[t], s.heap[t]))
  }

  ghost predicate Inv(s: State, stopper: nat) {
    PcsInv(s, stopper) && TimersHold(s) && DataInv(s, Current(s, stopper))
  }

  lemma InitInv(n: nat, stopper: nat)
    ensures Inv(Init(n), stopper)
  {
  }

  // ---------------------------------------------------------------------------
  // Steps of a timer thread
  // ---------------------------------------------------------------------------

  /** A thread step that changes its own program counter and at most the mutex. */
  lemma LocalStepKeepsInv(s: State, stopper: nat, t: Id, pc: TimerPc, interval: int, mutex: Owner)
    requires Inv(s, stopper) && t in s.threads
    requires var me := s.threads[t];
      && (mutex == HeldByTimer(t) <==> pc.Read? || pc.Unlock?)
      && (mutex != s.mutex ==> s.mutex == Unlocked || (s.mutex == HeldByTimer(t) && mutex == Unlocked))
      && (pc.Exited? ==> s.heap[t].quit)
      && (me.late == 1 ==> pc.Act? || pc.Top? || pc.Exited?)
    requires mutex == s.mutex || mutex == Unlocked || mutex == HeldByTimer(t)
    ensures Inv(Move(s.(mutex := mutex), t, s.threads[t].(pc := pc, interval := interval)), stopper)
  {
    hide Accumulated, Fires, PhaseOf;
    var s' := Move(s.(mutex := mutex), t, s.threads[t].(pc := pc, interval := interval));
    assert s'.threads.Keys == s.threads.Keys == {t};
    assert TimerInv(s.threads[t], s.heap[t]);
    assert TimerInv(s'.threads[t], s'.heap[t]);
    assert Holder(s') == Holder(s);
  }

  lemma PollKeepsTimer(s: State, t: Id)
    requires t in s.threads && t in s.heap && s.threads[t].pc.Work? && TimerInv(s.threads[t], s.heap[t])
    ensures TimerInv(DoPoll(s, t).threads[t], DoPoll(s, t).heap[t])
    ensures DoPoll(s, t).heap[t].quit == s.heap[t].quit && !DoPoll(s, t).threads[t].pc.Work?
    ensures !DoPoll(s, t).threads[t].pc.Read? && !DoPoll(s, t).threads[t].pc.Unlock?
  {
    hide Accumulated, Fires;
    FiresStep(s.threads[t].polls, Effective(s.threads[t].interval));
  }

  lemma PollKeepsInv(s: State, stopper: nat, t: Id)
    requires Inv(s, stopper) && t in s.threads && s.threads[t].pc.Work?
    ensures Inv(DoPoll(s, t), stopper)
  {
    hide TimerInv, PhaseOf, PcsInv, Holder;
    var s' := DoPoll(s, t);
    PollKeepsTimer(s, t);
    SamePcs(s, stopper, s');
    assert s'.threads.Keys == s.threads.Keys == {t};
    assert s'.heap.Keys == s.heap.Keys;
  }

  lemma SamePcs(s: State, stopper: nat, s': State)
    requires s'.controllers == s.controllers && s'.mutex == s.mutex && PcsInv(s, stopper)
    ensures PcsInv(s', stopper) && Holder(s') == Holder(s) && PcOf(s', stopper) == PcOf(s, stopper)
  {
    hide PhaseOf, HoldsMutex, InStop;
  }

  lemma TimerKeepsInv(s: State, stopper: nat, t: Id)
    requires Inv(s, stopper) && Enabled(s, TimerStep(t))
    ensures Inv(DoTimer(s, t), stopper)
  {
    hide Accumulated, Fires, DoPoll, Ownership, PcsInv;
    var me, s' := s.threads[t], DoTimer(s, t);
    assert TimerInv(me, s.heap[t]);
    if me.pc.Work? {
      PollKeepsInv(s, stopper, t);
    } else {
      var me' := s'.threads[t];
      assert s.(mutex := s.mutex) == s;
      LocalStepKeepsInv(s, stopper, t, me'.pc, me'.interval, s'.mutex);
      assert s' == Move(s.(mutex := s'.mutex), t, me.(pc := me'.pc, interval := me'.interval));
    }
  }

  // ---------------------------------------------------------------------------
  // Steps of a controller
  // ---------------------------------------------------------------------------

  /** A controller moves on, and takes or leaves the mutex with it. */
  lemma PcsKept(s: State, stopper: nat, s': State, i: nat, pc: ControllerPc)
    requires PcsInv(s, stopper) && i < |s.controllers| && s'.controllers == s.controllers[i := pc]
    requires s'.mutex == s.mutex || s.mutex == Unlocked || s.mutex == HeldByController(i)
    requires s'.mutex == if HoldsMutex(pc) then HeldByController(i)
      else if s.mutex == HeldByController(i) then Unlocked else s.mutex
    requires InStop(pc) ==> i == stopper
    requires pc.StartCreate? || pc.StartPublish? ==> PhaseOf(Idle, PcOf(s', stopper)) == Settled
    requires i == stopper && (Holder(s').StartCreate? || Holder(s').StartPublish?) ==> PhaseOf(Idle, pc) == Settled
    ensures PcsInv(s', stopper)
    ensures HoldsMutex(pc) ==> Holder(s') == pc
    ensures !HoldsMutex(pc) ==> Holder(s') == if s.mutex == HeldByController(i) then Idle else Holder(s)
    ensures PcOf(s', stopper) == if i == stopper then pc else PcOf(s, stopper)
  {
    hide HoldsMutex, InStop, PhaseOf;
  }

  /** The mutex and program counters move; contexts, threads and s_timer_ctx stay. */
  lemma QuietKeepsInv(s: State, stopper: nat, i: nat, choice: Choice)
    requires Inv(s, stopper) && Enabled(s, Controller(i, choice)) && (choice.CallStop? ==> i == stopper)
    requires var pc := s.controllers[i];
      || pc.Idle? || pc.StartLock? || pc.Leaving? || pc.StopLock? || pc.StopUnlock? || pc.StopRelock?
    ensures Inv(DoController(s, i, choice), stopper)
  {
    hide TimerInv, PcsInv, Ownership;
    var s' := DoController(s, i, choice);
    HolderIs(s, stopper, i);
    PcsKept(s, stopper, s', i, s'.controllers[i]);
    assert Current(s', stopper) == Current(s, stopper);
    SameData(s, s', Current(s, stopper));
    assert TimersHold(s');
  }

  /** What the program counters say about the mutex when controller i is to move. */
  lemma HolderIs(s: State, stopper: nat, i: nat)
    requires PcsInv(s, stopper) && i < |s.controllers|
    ensures HoldsMutex(s.controllers[i]) <==> s.mutex == HeldByController(i)
    ensures HoldsMutex(s.controllers[i]) ==> Holder(s) == s.controllers[i]
    ensures InStop(s.controllers[i]) ==> i == stopper && PcOf(s, stopper) == s.controllers[i]
    ensures Holder(s).StartCreate? || Holder(s).StartPublish? ==> PhaseOf(Idle, PcOf(s, stopper)) == Settled
    ensures Holder(s) == Idle || HoldsMutex(Holder(s))
    ensures s.mutex == Unlocked ==> Holder(s) == Idle
  {
    hide PhaseOf, InStop, HoldsMutex;
  }

  lemma SameData(s: State, s': State, phase: Phase)
    requires DataInv(s, phase)
    requires s'.heap == s.heap && s'.threads == s.threads && s'.current == s.current
    requires s'.nextId == s.nextId && s'.fault == s.fault
    ensures DataInv(s', phase)
  {
    hide TimerInv;
  }

  lemma NewOptionsKeepTimer(timer: Timer, ctx: Context, opts: Opts)
    requires TimerInv(timer, ctx)
    ensures TimerInv(timer, ctx.(opts := opts))
  {
    hide Accumulated, Fires;
  }

  /** start_timer_thread with the mutex: update, or calloc and fill. */
  lemma FillKeepsInv(s: State, stopper: nat, i: nat, choice: Choice)
    requires Inv(s, stopper) && Enabled(s, Controller(i, choice)) && s.controllers[i].StartInside?
    ensures Inv(DoController(s, i, choice), stopper)
  {
    hide TimerInv, PcsInv;
    var s' := DoController(s, i, choice);
    HolderIs(s, stopper, i);
    PcsKept(s, stopper, s', i, s'.controllers[i]);
    if s.current.Some? {
      var x := s.current.value;
      assert s'.heap.Keys == s.heap.Keys;
      forall t | t in s.threads
        ensures TimerInv(s'.threads[t], s'.heap[t])
      {
        NewOptionsKeepTimer(s.threads[t], s.heap[t], s'.heap[t].opts);
      }
    } else if choice.ok {
      assert s'.heap.Keys == {s.nextId};
    }
  }

  /** pthread_create and the assignment to s_timer_ctx. */
  lemma CreateKeepsInv(s: State, stopper: nat, i: nat, choice: Choice)
    requires Inv(s, stopper) && Enabled(s, Controller(i, choice))
    requires s.controllers[i].StartCreate? || s.controllers[i].StartPublish?
    ensures Inv(DoController(s, i, choice), stopper)
  {
    hide Accumulated, Fires, PcsInv;
    var s' := DoController(s, i, choice);
    HolderIs(s, stopper, i);
    PcsKept(s, stopper, s', i, s'.controllers[i]);
    FiresStart();
    match s.controllers[i] {
      case StartCreate(x) =>
        if choice.ok {
          assert s'.threads.Keys == {x};
          assert TimerInv(s'.threads[x], s'.heap[x]);
        } else {
          assert s'.heap.Keys == {};
        }
      case _ =>
    }
  }

  /** stop_timer_thread sets quit. */
  lemma QuitKeepsInv(s: State, stopper: nat, i: nat, choice: Choice)
    requires Inv(s, stopper) && Enabled(s, Controller(i, choice)) && s.controllers[i].StopInside?
    ensures Inv(DoController(s, i, choice), stopper)
  {
    hide Accumulated, Fires, PcsInv;
    var s' := DoController(s, i, choice);
    HolderIs(s, stopper, i);
    PcsKept(s, stopper, s', i, s'.controllers[i]);
    if s.current.Some? {
      var x := s.current.value;
      assert s'.heap.Keys == s.heap.Keys == {x};
      assert TimerInv(s.threads[x], s.heap[x]);
      assert TimerInv(s'.threads[x], s'.heap[x]);
    }
  }

  /** pthread_join, and the free of the context. */
  lemma JoinKeepsInv(s: State, stopper: nat, i: nat, choice: Choice)
    requires Inv(s, stopper) && Enabled(s, Controller(i, choice))
    requires s.controllers[i].StopJoin? || s.controllers[i].StopFree?
    ensures Inv(DoController(s, i, choice), stopper)
  {
    hide TimerInv, PcsInv;
    var s' := DoController(s, i, choice);
    HolderIs(s, stopper, i);
    PcsKept(s, stopper, s', i, s'.controllers[i]);
    if s.controllers[i].StopJoin? {
      assert s'.threads.Keys == {};
    } else {
      assert s'.heap.Keys == {};
    }
  }

  /** Only `stopper` calls stop_timer_thread. */
  predicate OneStops(run: seq<Action>, stopper: nat) {
    forall k :: 0 <= k < |run| && run[k].Controller? && run[k].choice.CallStop? ==> run[k].i == stopper
  }

  lemma StepKeepsInv(s: State, stopper: nat, a: Action)
    requires Inv(s, stopper) && Enabled(s, a) && OneStops([a], stopper)
    ensures Inv(Do(s, a), stopper)
  {
    hide DoTimer, DoController, Inv;
    assert [a][0] == a;
    match a
    case TimerStep(t) => TimerKeepsInv(s, stopper, t);
    case Controller(i, choice) =>
      match s.controllers[i] {
        case StartInside(_) => FillKeepsInv(s, stopper, i, choice);
        case StartCreate(_) => CreateKeepsInv(s, stopper, i, choice);
        case StartPublish(_) => CreateKeepsInv(s, stopper, i, choice);
        case StopInside => QuitKeepsInv(s, stopper, i, choice);
        case StopJoin => JoinKeepsInv(s, stopper, i, choice);
        case StopFree => JoinKeepsInv(s, stopper, i, choice);
        case _ => QuietKeepsInv(s, stopper, i, choice);
      }
  }

  lemma {:induction false} RunKeepsInv(s: State, stopper: nat, run: seq<Action>)
    requires Inv(s, stopper) && Executable(s, run) && OneStops(run, stopper)
    ensures Inv(After(s, run), stopper)
    decreases run
  {
    hide Inv, Enabled, DoTimer, DoController;
    if run != [] {
      assert OneStops([run[0]], stopper);
      StepKeepsInv(s, stopper, run[0]);
      RunKeepsInv(Do(s, run[0]), stopper, run[1..]);
    }
  }

  // ---------------------------------------------------------------------------
  // Main results
  // ---------------------------------------------------------------------------

  /** A controller is between creating and publishing, or between joining and clearing. */
  predicate MidHandover(pc: ControllerPc) {
    pc.StartPublish? || pc.StopRelock? || pc.StopFree?
  }

  /** What the protocol promises. */
  ghost predicate Safe(s: State) {
    && !s.fault
    && |s.threads| <= 1
    && (forall t :: t in s.threads ==> t in s.heap)
    && ((forall i :: 0 <= i < |s.controllers| ==> !MidHandover(s.controllers[i])) ==>
          (s.current.Some? <==> s.threads.Keys != {}) && (s.current.Some? ==> s.current.value in s.threads))
    && (forall t :: t in s.threads ==>
          s.threads[t].late <= 1 && s.heap[t].counter == Fires(s.threads[t].polls))
  }

  /**
    In every interleaving of any number of controllers, of which one stops the timer and all may
    start and update it: no NULL or freed context is used and no thread is joined twice; at most one
    timer thread exists, and its context is allocated; s_timer_ctx is non-NULL exactly while an
    unjoined thread owns it, save mid-handover; at most one fire comes after quit; and the counter
    is the number of fires that the completed polls call for.
   */
  lemma {:induction false} Safety(n: nat, stopper: nat, run: seq<Action>)
    requires Executable(Init(n), run) && OneStops(run, stopper)
    ensures Safe(After(Init(n), run))
  {
    hide Executable, After, Inv;
    InitInv(n, stopper);
    RunKeepsInv(Init(n), stopper, run);
    InvIsSafe(After(Init(n), run), stopper);
  }

  /** A single controller, as in the source, is such a run whatever it calls. */
  lemma {:induction false} OneController(s: State, run: seq<Action>)
    requires |s.controllers| == 1 && Executable(s, run)
    ensures OneStops(run, 0)
    decreases run
  {
    hide DoTimer, DoController;
    if run != [] {
      SameControllers(s, run[0]);
      OneController(Do(s, run[0]), run[1..]);
      assert run == [run[0]] + run[1..];
    }
  }

  lemma SameControllers(s: State, a: Action)
    requires Enabled(s, a)
    ensures |Do(s, a).controllers| == |s.controllers|
  {
  }

  lemma InvIsSafe(s: State, stopper: nat)
    requires Inv(s, stopper)
    ensures Safe(s)
  {
    hide Accumulated, Fires;
    assert s.threads.Keys == {} || exists t :: s.threads.Keys == {t};
    assert |s.threads| == |s.threads.Keys|;
    forall t | t in s.threads
      ensures s.threads[t].late <= 1 && s.heap[t].counter == Fires(s.threads[t].polls)
    {
      assert TimerInv(s.threads[t], s.heap[t]);
    }
  }

  /** How many of its own steps a timer thread may still take once quit is set. */
  function StepsLeft(pc: TimerPc): nat {
    match pc
    case Exited => 0
    case Top => 1
    case Check => 1
    case Sleep => 2
    case Act => 2
    case Work => 3
    case Unlock => 4
    case Read => 5
    case WaitLock => 6
  }

  lemma QuitTimerAdvances(s: State, t: Id)
    requires Enabled(s, TimerStep(t)) && t in s.heap && s.heap[t].quit
    ensures t in DoTimer(s, t).threads
    ensures StepsLeft(DoTimer(s, t).threads[t].pc) < StepsLeft(s.threads[t].pc) <= 6
  {
  }

  lemma JoinGetsThrough(s: State, stopper: nat)
    requires Inv(s, stopper) && stopper < |s.controllers| && s.controllers[stopper].StopJoin?
    ensures GetsThrough(s, stopper)
  {
    hide DoTimer, StepsLeft, TimerInv;
    var t := s.current.value;
    assert t in s.threads && s.heap[t].quit;
    if Enabled(s, TimerStep(t)) {
      QuitTimerAdvances(s, t);
    }
  }

  /**
    The join returns, or the thread it waits for takes a step and is nearer to its end, or that
    thread waits for a controller that can go on.
   */
  ghost predicate GetsThrough(s: State, stopper: nat) {
    && !JoinFaults(s)
    && var t := s.current.value;
       var timer := s.threads[t];
       if timer.pc.Exited? then Enabled(s, Controller(stopper, Continue(true, "")))
       else if timer.pc.WaitLock? && s.mutex.HeldByController? then
         Enabled(s, Controller(s.mutex.i, Continue(true, "")))
       else
         && Enabled(s, TimerStep(t)) && t in DoTimer(s, t).threads
         && StepsLeft(DoTimer(s, t).threads[t].pc) < StepsLeft(timer.pc) <= 6
  }

  /**
    A stop is never stuck: whenever a controller waits in pthread_join, the join can return, or the
    thread it waits for can move and has at most six steps left, or the holder of the mutex can move.
   */
  lemma {:induction false} StopIsNotStuck(n: nat, stopper: nat, run: seq<Action>)
    requires Executable(Init(n), run) && OneStops(run, stopper)
    requires PcOf(After(Init(n), run), stopper).StopJoin?
    ensures GetsThrough(After(Init(n), run), stopper)
  {
    hide Executable, After, Inv, GetsThrough;
    InitInv(n, stopper);
    RunKeepsInv(Init(n), stopper, run);
    JoinGetsThrough(After(Init(n), run), stopper);
  }

  /** Every interval a start asks for stays within `limit`. */
  predicate AsksAtMost(run: seq<Action>, limit: int) {
    forall i :: 0 <= i < |run| && run[i].Controller? && run[i].choice.CallStart?
      ==> run[i].choice.opts.interval <= limit
  }

  predicate IntervalOk(timer: Timer, limit: int) {
    && (timer.pc.Unlock? || timer.pc.Work? ==> 0 < timer.interval <= limit)
    && Bounded(timer.polls, limit)
  }

  predicate ContextOk(ctx: Context, limit: int) {
    0 < ctx.opts.interval <= limit
  }

  predicate PcOk(pc: ControllerPc, limit: int) {
    pc.StartLock? || pc.StartInside? ==> pc.opts.interval <= limit
  }

  ghost predicate IntervalsInv(s: State, limit: int) {
    && (forall x :: x in s.heap ==> ContextOk(s.heap[x], limit))
    && (forall t :: t in s.threads ==> IntervalOk(s.threads[t], limit))
    && (forall i :: 0 <= i < |s.controllers| ==> PcOk(s.controllers[i], limit))
  }

  lemma BoundedPush(polls: seq<int>, interval: int, limit: int)
    requires Bounded(polls, limit) && 0 < interval <= limit
    ensures Bounded(polls + [interval], limit)
  {
  }

  lemma TimerKeepsIntervals(s: State, t: Id, limit: int)
    requires limit >= DEFAULT_INTERVAL && IntervalsInv(s, limit) && Enabled(s, TimerStep(t)) && t in s.heap
    ensures IntervalsInv(DoTimer(s, t), limit)
  {
    hide IntervalOk, ContextOk, PcOk, DoPoll;
    assert IntervalOk(s.threads[t], limit) && ContextOk(s.heap[t], limit);
    if s.threads[t].pc.Work? {
      PollKeepsIntervals(s, t, limit);
    } else {
      hide DoTimer;
      LocalStepIsOk(s, t, limit);
    }
  }

  lemma LocalStepIsOk(s: State, t: Id, limit: int)
    requires Enabled(s, TimerStep(t)) && t in s.heap && !s.threads[t].pc.Work?
    requires IntervalOk(s.threads[t], limit) && ContextOk(s.heap[t], limit)
    ensures var s' := DoTimer(s, t);
      && s'.heap == s.heap && s'.controllers == s.controllers
      && t in s'.threads && s'.threads == s.threads[t := s'.threads[t]] && IntervalOk(s'.threads[t], limit)
  {
    hide Bounded, DoPoll;
  }

  lemma PollKeepsIntervals(s: State, t: Id, limit: int)
    requires limit >= DEFAULT_INTERVAL && IntervalsInv(s, limit) && t in s.threads && t in s.heap
    requires s.threads[t].pc.Work?
    ensures IntervalsInv(DoPoll(s, t), limit)
  {
    hide Bounded, PcOk;
    var me, s' := s.threads[t], DoPoll(s, t);
    assert IntervalOk(me, limit) && ContextOk(s.heap[t], limit);
    BoundedPush(me.polls, Effective(me.interval), limit);
    assert s'.heap.Keys == s.heap.Keys && s'.threads.Keys == s.threads.Keys;
    assert IntervalOk(s'.threads[t], limit) && ContextOk(s'.heap[t], limit);
  }

  lemma FillKeepsIntervals(s: State, i: nat, choice: Choice, limit: int)
    requires limit >= DEFAULT_INTERVAL && IntervalsInv(s, limit)
    requires Enabled(s, Controller(i, choice)) && s.controllers[i].StartInside?
    ensures IntervalsInv(DoController(s, i, choice), limit)
  {
    hide IntervalOk;
    var s' := DoController(s, i, choice);
    assert PcOk(s.controllers[i], limit);
    assert s'.controllers == s.controllers[i := s'.controllers[i]] && PcOk(s'.controllers[i], limit);
    assert forall x :: x in s'.heap ==> x in s.heap || x == s.nextId;
  }

  lemma ControllerKeepsIntervals(s: State, i: nat, choice: Choice, limit: int)
    requires limit >= DEFAULT_INTERVAL && IntervalsInv(s, limit)
    requires Enabled(s, Controller(i, choice))
    requires choice.CallStart? ==> choice.opts.interval <= limit
    ensures IntervalsInv(DoController(s, i, choice), limit)
  {
    if s.controllers[i].StartInside? {
      hide IntervalsInv, Enabled, DoController;
      FillKeepsIntervals(s, i, choice, limit);
    } else {
      hide IntervalOk;
      var s' := DoController(s, i, choice);
      assert s'.controllers == s.controllers[i := s'.controllers[i]] && PcOk(s'.controllers[i], limit);
      NewTimerOk(limit);
    }
  }

  lemma NewTimerOk(limit: int)
    ensures IntervalOk(Timer(Top, 0, 0, [], 0), limit)
  {
  }

  lemma StepKeepsIntervals(s: State, stopper: nat, a: Action, limit: int)
    requires limit >= DEFAULT_INTERVAL && IntervalsInv(s, limit) && Inv(s, stopper) && Enabled(s, a)
    requires AsksAtMost([a], limit)
    ensures IntervalsInv(Do(s, a), limit)
  {
    hide DoTimer, DoController, IntervalsInv;
    assert [a][0] == a;
    match a
    case TimerStep(t) => TimerKeepsIntervals(s, t, limit);
    case Controller(i, choice) => ControllerKeepsIntervals(s, i, choice, limit);
  }

  lemma {:induction false} RunKeepsIntervals(s: State, stopper: nat, run: seq<Action>, limit: int)
    requires limit >= DEFAULT_INTERVAL && IntervalsInv(s, limit) && Inv(s, stopper) && Executable(s, run)
    requires AsksAtMost(run, limit) && OneStops(run, stopper)
    ensures IntervalsInv(After(s, run), limit)
    decreases run
  {
    hide Inv, IntervalsInv, Enabled, DoTimer, DoController;
    if run != [] {
      assert AsksAtMost([run[0]], limit) && OneStops([run[0]], stopper);
      StepKeepsIntervals(s, stopper, run[0], limit);
      StepKeepsInv(s, stopper, run[0]);
      RunKeepsIntervals(Do(s, run[0]), stopper, run[1..], limit);
    }
  }

  /** With all intervals at most 2147483600 ms, `accumulated_ms += 100` never overflows an int. */
  lemma {:induction false} NoOverflow(n: nat, stopper: nat, run: seq<Action>)
    requires Executable(Init(n), run) && OneStops(run, stopper) && AsksAtMost(run, SAFE_INTERVAL)
    ensures var s := After(Init(n), run);
      forall t :: t in s.threads ==> 0 <= s.threads[t].accumulated <= INT_MAX - POLL_MS
  {
    hide Executable, After, PcsInv, Ownership;
    InitInv(n, stopper);
    var s := After(Init(n), run);
    RunKeepsInv(Init(n), stopper, run);
    RunKeepsIntervals(Init(n), stopper, run, SAFE_INTERVAL);
    forall t | t in s.threads
      ensures 0 <= s.threads[t].accumulated <= INT_MAX - POLL_MS
    {
      AccumulatedBound(s.threads[t].polls, SAFE_INTERVAL);
    }
  }

  // ---------------------------------------------------------------------------
  // Two controllers that stop the timer
  // ---------------------------------------------------------------------------

  function C(i: nat): Action {
    Controller(i, Continue(true, ""))
  }

  /** Controller i starts the timer. */
  function StartRun(i: nat, opts: Opts): seq<Action> {
    [Controller(i, CallStart(opts)), C(i), C(i), C(i), C(i), C(i)]
  }

  /** Controller i sets quit and gets as far as the join. */
  function QuitRun(i: nat): seq<Action> {
    [Controller(i, CallStop), C(i), C(i), C(i)]
  }

  /** The timer exits; controller i joins it and frees the context; controller j then joins. */
  function JoinRun(i: nat, j: nat): seq<Action> {
    [TimerStep(0), C(i), C(i), C(i), C(i), C(j)]
  }

  function DoubleStop(i: nat, j: nat, opts: Opts): seq<Action> {
    StartRun(i, opts) + (QuitRun(i) + (QuitRun(j) + JoinRun(i, j)))
  }

  lemma Step(s: State, a: Action, run: seq<Action>)
    requires run != [] && run[0] == a && Enabled(s, a) && Executable(Do(s, a), run[1..])
    ensures Executable(s, run) && After(s, run) == After(Do(s, a), run[1..])
  {
  }

  lemma {:induction false} RunConcat(s: State, a: seq<Action>, b: seq<Action>)
    requires Executable(s, a) && Executable(After(s, a), b)
    ensures Executable(s, a + b) && After(s, a + b) == After(After(s, a), b)
    decreases a
  {
    hide Enabled, Do;
    if a == [] {
      assert a + b == b;
    } else {
      assert (a + b)[0] == a[0] && (a + b)[1..] == a[1..] + b;
      RunConcat(Do(s, a[0]), a[1..], b);
    }
  }

  function Running(o: Opts, quit: bool, pcs: seq<ControllerPc>): State {
    State(map[0 := Context(quit, o, 0)], 1, Some(0), Unlocked, pcs, map[0 := Timer(Top, 0, 0, [], 0)], false)
  }

  lemma StartRuns(n: nat, i: nat, opts: Opts)
    requires i < n
    ensures Executable(Init(n), StartRun(i, opts))
    ensures After(Init(n), StartRun(i, opts)) == Running(InitialOpts(opts, ""), false, Init(n).controllers)
  {
    hide InitialOpts;
    var s0, r0 := Init(n), StartRun(i, opts);
    var s1, r1 := Do(s0, r0[0]), r0[1..];
    var s2, r2 := Do(s1, r1[0]), r1[1..];
    var s3, r3 := Do(s2, r2[0]), r2[1..];
    var s4, r4 := Do(s3, r3[0]), r3[1..];
    var s5, r5 := Do(s4, r4[0]), r4[1..];
    var s6 := Do(s5, r5[0]);
    assert s6.controllers == s0.controllers;
    assert s6 == Running(InitialOpts(opts, ""), false, Init(n).controllers);
    Step(s5, r5[0], r5);
    Step(s4, r4[0], r4);
    Step(s3, r3[0], r3);
    Step(s2, r2[0], r2);
    Step(s1, r1[0], r1);
    Step(s0, r0[0], r0);
  }

  lemma QuitRuns(o: Opts, quit: bool, pcs: seq<ControllerPc>, i: nat)
    requires i < |pcs| && pcs[i] == Idle
    ensures var s := Running(o, quit, pcs);
      Executable(s, QuitRun(i)) && After(s, QuitRun(i)) == Running(o, true, pcs[i := StopJoin])
  {
    var s0, r0 := Running(o, quit, pcs), QuitRun(i);
    var s1, r1 := Do(s0, r0[0]), r0[1..];
    var s2, r2 := Do(s1, r1[0]), r1[1..];
    var s3, r3 := Do(s2, r2[0]), r2[1..];
    var s4 := Do(s3, r3[0]);
    assert s4.heap == map[0 := Context(true, o, 0)];
    assert s4.controllers == pcs[i := StopJoin];
    Step(s3, r3[0], r3);
    Step(s2, r2[0], r2);
    Step(s1, r1[0], r1);
    Step(s0, r0[0], r0);
  }

  lemma JoinRuns(o: Opts, pcs: seq<ControllerPc>, i: nat, j: nat)
    requires i < |pcs| && j < |pcs| && i != j && pcs[i] == StopJoin && pcs[j] == StopJoin
    ensures var s := Running(o, true, pcs); Executable(s, JoinRun(i, j)) && After(s, JoinRun(i, j)).fault
  {
    var s0, r0 := Running(o, true, pcs), JoinRun(i, j);
    var s1, r1 := Do(s0, r0[0]), r0[1..];
    var s2, r2 := Do(s1, r1[0]), r1[1..];
    var s3, r3 := Do(s2, r2[0]), r2[1..];
    var s4, r4 := Do(s3, r3[0]), r3[1..];
    var s5, r5 := Do(s4, r4[0]), r4[1..];
    Step(s5, r5[0], r5);
    Step(s4, r4[0], r4);
    Step(s3, r3[0], r3);
    Step(s2, r2[0], r2);
    Step(s1, r1[0], r1);
    Step(s0, r0[0], r0);
  }

  /** With two controllers that both stop the timer, a run ends in a use of NULL or freed memory. */
  lemma {:induction false} TwoStoppersFault(n: nat, i: nat, j: nat, opts: Opts)
    requires i < n && j < n && i != j
    ensures Executable(Init(n), DoubleStop(i, j, opts)) && After(Init(n), DoubleStop(i, j, opts)).fault
  {
    hide Executable, After, StartRun, QuitRun, JoinRun, InitialOpts, Running;
    var o, pcs := InitialOpts(opts, ""), Init(n).controllers;
    var pcs1 := pcs[i := StopJoin];
    var pcs2 := pcs1[j := StopJoin];
    StartRuns(n, i, opts);
    QuitRuns(o, false, pcs, i);
    QuitRuns(o, true, pcs1, j);
    JoinRuns(o, pcs2, i, j);
    RunConcat(Running(o, true, pcs1), QuitRun(j), JoinRun(i, j));
    RunConcat(Running(o, false, pcs), QuitRun(i), QuitRun(j) + JoinRun(i, j));
    RunConcat(Init(n), StartRun(i, opts), QuitRun(i) + (QuitRun(j) + JoinRun(i, j)));
  }

  /** Only these controllers call stop_timer_thread. */
  predicate TheseStop(run: seq<Action>, stoppers: set<nat>) {
    forall k :: 0 <= k < |run| && run[k].Controller? && run[k].choice.CallStop? ==> run[k].i in stoppers
  }

  /**
    Where the protocol is safe, exactly: among n controllers of which some stop the timer, every run
    is free of faults if and only if at most one of them does.
   */
  lemma {:induction false} SafeIff(n: nat, stoppers: set<nat>)
    requires forall i :: i in stoppers ==> i < n
    ensures (forall run :: Executable(Init(n), run) && TheseStop(run, stoppers) ==> !After(Init(n), run).fault)
      <==> |stoppers| <= 1
  {
    hide Executable, After, Init;
    if |stoppers| <= 1 {
      var stopper := OneOf(stoppers);
      forall run | Executable(Init(n), run) && TheseStop(run, stoppers)
        ensures !After(Init(n), run).fault
      {
        Safety(n, stopper, run);
      }
    } else {
      var i, j := TwoOf(stoppers);
      var opts := Opts(0, false, false, false, "");
      TwoStoppersFault(n, i, j, opts);
      assert TheseStop(DoubleStop(i, j, opts), stoppers);
    }
  }

  lemma OneOf(s: set<nat>) returns (i: nat)
    requires |s| <= 1
    ensures forall j :: j in s ==> j == i
  {
    i := 0;
    if s != {} {
      i :| i in s;
      assert |s - {i}| == 0;
      assert forall j :: j in s ==> j in s - {i} || j == i;
    }
  }

  lemma TwoOf(s: set<nat>) returns (i: nat, j: nat)
    requires |s| > 1
    ensures i in s && j in s && i != j
  {
    i :| i in s;
    assert |s - {i}| == |s| - 1;
    j :| j in s - {i};
  }
}
