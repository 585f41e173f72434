/**
  Infinite runs of the timer protocol: stop_timer_thread's pthread_join returns under fair
  scheduling, and how much fairness that takes.
 */
module TimerLiveness {
  import opened CText
  import opened TimerCadence
  import opened TimerProtocol

  /** An infinite run: at each time the state, and who moves; None if nobody does. */
  datatype Infinite = Infinite(state: nat -> State, action: nat -> Option<Action>)

  ghost predicate Follows(r: Infinite, stopper: nat, k: nat) {
    match r.action(k)
    case None => r.state(k + 1) == r.state(k)
    case Some(a) =>
      Enabled(r.state(k), a) && OneStops([a], stopper) && r.state(k + 1) == Do(r.state(k), a)
  }

  ghost predicate IsRun(r: Infinite, stopper: nat) {
    forall k :: Follows(r, stopper, k)
  }

  predicate Moves(r: Infinite, i: nat, k: nat) {
    match r.action(k)
    case Some(Controller(j, _)) => i == j
    case _ => false
  }

  /** Controller i is inside a call and not blocked. */
  predicate CanContinue(s: State, i: nat) {
    Enabled(s, Controller(i, Continue(true, "")))
  }

  ghost predicate MovesOrBlocks(r: Infinite, i: nat, k: nat) {
    exists m :: m >= k && (Moves(r, i, m) || !CanContinue(r.state(m), i))
  }

  /** A controller that is not blocked from some time on moves. */
  ghost predicate Fair(r: Infinite, i: nat) {
    forall k :: MovesOrBlocks(r, i, k)
  }

  predicate Steps(r: Infinite, t: Id, k: nat) {
    r.action(k) == Some(TimerStep(t))
  }

  ghost predicate StepsOrBlocks(r: Infinite, t: Id, k: nat) {
    exists m :: m >= k && (Steps(r, t, m) || !Enabled(r.state(m), TimerStep(t)))
  }

  /** A thread that is not blocked from some time on moves. */
  ghost predicate WeaklyFair(r: Infinite, t: Id) {
    forall k :: StepsOrBlocks(r, t, k)
  }

  ghost predicate BlockedFrom(r: Infinite, t: Id, k: nat) {
    forall m :: m >= k ==> !Enabled(r.state(m), TimerStep(t))
  }

  ghost predicate StepsOrStaysBlocked(r: Infinite, t: Id, k: nat) {
    exists m :: m >= k && (Steps(r, t, m) || BlockedFrom(r, t, m))
  }

  /** A thread that is not blocked again and again moves: it gets the mutex some time. */
  ghost predicate StronglyFair(r: Infinite, t: Id) {
    forall k :: StepsOrStaysBlocked(r, t, k)
  }

  // ---------------------------------------------------------------------------
  // While the controller waits in pthread_join
  // ---------------------------------------------------------------------------

  /** `stopper` waits for thread t. */
  ghost predicate Waiting(s: State, stopper: nat, t: Id) {
    && Inv(s, stopper) && PcOf(s, stopper).StopJoin?
    && s.current == Some(t) && t in s.threads && t in s.heap && s.heap[t].quit
  }

  ghost predicate WaitingAt(r: Infinite, stopper: nat, t: Id, k: nat) {
    Waiting(r.state(k), stopper, t)
  }

  function Left(r: Infinite, t: Id, k: nat): nat {
    if t in r.state(k).threads then StepsLeft(r.state(k).threads[t].pc) else 0
  }

  /** The join returns at time k. */
  ghost predicate Joins(r: Infinite, stopper: nat, k: nat) {
    Moves(r, stopper, k) && PcOf(r.state(k), stopper).StopJoin? && PcOf(r.state(k + 1), stopper).StopRelock?
  }

  ghost predicate JoinsIn(r: Infinite, stopper: nat, k: nat, m: nat) {
    exists j :: k <= j < m && Joins(r, stopper, j)
  }

  lemma JoinWaits(s: State, stopper: nat)
    requires Inv(s, stopper) && PcOf(s, stopper).StopJoin?
    ensures s.current.Some? && Waiting(s, stopper, s.current.value)
  {
    hide TimerInv;
  }

  /** The others' steps change neither whom the controller waits for nor, but for t itself, how long. */
  lemma WaitStep(s: State, stopper: nat, t: Id, a: Action)
    requires Waiting(s, stopper, t) && Enabled(s, a) && OneStops([a], stopper)
    requires a.Controller? ==> a.i != stopper
    ensures Waiting(Do(s, a), stopper, t)
    ensures if a == TimerStep(t) then StepsLeft(Do(s, a).threads[t].pc) < StepsLeft(s.threads[t].pc)
      else Do(s, a).threads[t] == s.threads[t]
  {
    hide TimerInv, StepsLeft, DoTimer;
    StepKeepsInv(s, stopper, a);
    match a
    case TimerStep(u) =>
      assert u == t;
      TimerStays(s, t);
      QuitTimerAdvances(s, t);
      JoinWaits(Do(s, a), stopper);
    case Controller(i, choice) =>
      JoinWaits(Do(s, a), stopper);
  }

  lemma TimerStays(s: State, t: Id)
    requires Enabled(s, TimerStep(t))
    ensures DoTimer(s, t).controllers == s.controllers && DoTimer(s, t).current == s.current
  {
  }

  /** One time unit: the join returns, or the wait goes on. */
  lemma WaitGoesOn(r: Infinite, stopper: nat, t: Id, k: nat)
    requires IsRun(r, stopper) && WaitingAt(r, stopper, t, k)
    ensures if Moves(r, stopper, k) then Joins(r, stopper, k)
      else WaitingAt(r, stopper, t, k + 1) && Left(r, t, k + 1) <= Left(r, t, k)
    ensures Steps(r, t, k) ==> Left(r, t, k + 1) < Left(r, t, k)
  {
    hide Inv, StepsLeft, DoTimer;
    assert Follows(r, stopper, k);
    if r.action(k).Some? && !Moves(r, stopper, k) {
      WaitStep(r.state(k), stopper, t, r.action(k).value);
    }
  }

  lemma {:induction false} WaitPersists(r: Infinite, stopper: nat, t: Id, k: nat, m: nat)
    requires IsRun(r, stopper) && WaitingAt(r, stopper, t, k) && k <= m
    ensures JoinsIn(r, stopper, k, m) || (WaitingAt(r, stopper, t, m) && Left(r, t, m) <= Left(r, t, k))
    decreases m
  {
    hide IsRun, Waiting, Joins, Moves, StepsLeft;
    if m > k {
      WaitPersists(r, stopper, t, k, m - 1);
      if WaitingAt(r, stopper, t, m - 1) {
        WaitGoesOn(r, stopper, t, m - 1);
      }
    }
  }

  // ---------------------------------------------------------------------------
  // The mutex comes free
  // ---------------------------------------------------------------------------

  predicate AtLock(s: State, t: Id) {
    t in s.threads && s.threads[t].pc.WaitLock?
  }

  /** Steps until the controller that holds the mutex unlocks it: while another waits, it is in an update. */
  function HoldLeft(s: State): nat {
    if !s.mutex.HeldByController? then 0
    else if Holder(s).Leaving? then 1
    else 2
  }

  /** At time k controller i has the mutex and t waits for it. */
  ghost predicate Kept(s: State, stopper: nat, t: Id, i: nat) {
    Waiting(s, stopper, t) && AtLock(s, t) && s.mutex == HeldByController(i)
  }

  ghost predicate Free(s: State, stopper: nat, t: Id) {
    Waiting(s, stopper, t) && AtLock(s, t) && s.mutex == Unlocked
  }

  lemma HolderCanContinue(s: State, stopper: nat, t: Id, i: nat)
    requires Kept(s, stopper, t, i)
    ensures CanContinue(s, i) && i != stopper && HoldLeft(s) > 0
  {
    hide DataInv, TimersHold;
  }

  /** The join cannot return now, nobody else gets the mutex, and each step of the holder brings it closer. */
  lemma HoldStep(s: State, stopper: nat, t: Id, i: nat, a: Action)
    requires Kept(s, stopper, t, i) && Enabled(s, a) && OneStops([a], stopper)
    ensures if a.Controller? && a.i == i
      then Free(Do(s, a), stopper, t) || (Kept(Do(s, a), stopper, t, i) && HoldLeft(Do(s, a)) < HoldLeft(s))
      else Kept(Do(s, a), stopper, t, i) && HoldLeft(Do(s, a)) == HoldLeft(s)
  {
    hide TimerInv, StepsLeft;
    WaitStep(s, stopper, t, a);
  }

  lemma {:induction false} HolderMoves(r: Infinite, stopper: nat, t: Id, i: nat, k: nat, m: nat) returns (l: nat)
    requires IsRun(r, stopper) && Kept(r.state(k), stopper, t, i)
    requires k <= m && (Moves(r, i, m) || !CanContinue(r.state(m), i))
    ensures l > k
    ensures Free(r.state(l), stopper, t) ||
      (Kept(r.state(l), stopper, t, i) && HoldLeft(r.state(l)) < HoldLeft(r.state(k)))
    decreases m - k
  {
    hide Kept, Free, HoldLeft, CanContinue, Enabled, Do;
    HolderCanContinue(r.state(k), stopper, t, i);
    assert Follows(r, stopper, k);
    if r.action(k).Some? {
      HoldStep(r.state(k), stopper, t, i, r.action(k).value);
    }
    if Moves(r, i, k) {
      l := k + 1;
    } else {
      l := HolderMoves(r, stopper, t, i, k + 1, m);
    }
  }

  lemma {:induction false} MutexComesFree(r: Infinite, stopper: nat, t: Id, i: nat, k: nat) returns (l: nat)
    requires IsRun(r, stopper) && Fair(r, i) && Kept(r.state(k), stopper, t, i)
    ensures l >= k && Free(r.state(l), stopper, t)
    decreases HoldLeft(r.state(k))
  {
    hide IsRun, Kept, Free, HoldLeft, CanContinue;
    assert MovesOrBlocks(r, i, k);
    var m :| m >= k && (Moves(r, i, m) || !CanContinue(r.state(m), i));
    l := HolderMoves(r, stopper, t, i, k, m);
    if !Free(r.state(l), stopper, t) {
      l := MutexComesFree(r, stopper, t, i, l);
    }
  }

  /** The thread has exited, or it is not blocked for good. */
  lemma ThreadGetsTurn(r: Infinite, stopper: nat, t: Id, k: nat)
    requires IsRun(r, stopper) && (forall i :: Fair(r, i)) && WaitingAt(r, stopper, t, k)
    ensures Left(r, t, k) == 0 || !BlockedFrom(r, t, k)
  {
    hide IsRun, Fair;
    var s := r.state(k);
    if AtLock(s, t) && s.mutex.HeldByController? {
      var l := MutexComesFree(r, stopper, t, s.mutex.i, k);
      assert Enabled(r.state(l), TimerStep(t));
    } else if !s.threads[t].pc.Exited? {
      NotBlocked(s, stopper, t);
    }
  }

  lemma NotBlocked(s: State, stopper: nat, t: Id)
    requires Waiting(s, stopper, t) && !s.threads[t].pc.Exited?
    requires !(AtLock(s, t) && s.mutex.HeldByController?)
    ensures Enabled(s, TimerStep(t))
  {
    hide PcsInv, TimerInv;
  }

  // ---------------------------------------------------------------------------
  // The join returns
  // ---------------------------------------------------------------------------

  /** From time k on, the join returns or thread t comes nearer to its end. */
  ghost predicate Advances(r: Infinite, stopper: nat, t: Id, k: nat) {
    exists m :: m > k && (JoinsIn(r, stopper, k, m) || (WaitingAt(r, stopper, t, m) && Left(r, t, m) < Left(r, t, k)))
  }

  lemma StrongAdvances(r: Infinite, stopper: nat, t: Id, k: nat)
    requires IsRun(r, stopper) && (forall i :: Fair(r, i)) && StronglyFair(r, t)
    requires WaitingAt(r, stopper, t, k) && Left(r, t, k) > 0
    ensures Advances(r, stopper, t, k)
  {
    hide IsRun, Fair, BlockedFrom, WaitingAt, Joins, Left;
    assert StepsOrStaysBlocked(r, t, k);
    var m :| m >= k && (Steps(r, t, m) || BlockedFrom(r, t, m));
    WaitPersists(r, stopper, t, k, m);
    if WaitingAt(r, stopper, t, m) {
      ThreadGetsTurn(r, stopper, t, m);
      WaitGoesOn(r, stopper, t, m);
      assert Steps(r, t, m) ==> !Moves(r, stopper, m);
    }
    assert JoinsIn(r, stopper, k, m) ==> JoinsIn(r, stopper, k, m + 1);
  }

  lemma {:induction false} JoinReturns(r: Infinite, stopper: nat, t: Id, k: nat)
    requires IsRun(r, stopper) && Fair(r, stopper) && WaitingAt(r, stopper, t, k)
    requires forall m :: WaitingAt(r, stopper, t, m) && Left(r, t, m) > 0 ==> Advances(r, stopper, t, m)
    ensures exists m :: m >= k && Joins(r, stopper, m)
    decreases Left(r, t, k)
  {
    hide IsRun, WaitingAt, Joins, Left;
    if Left(r, t, k) == 0 {
      assert MovesOrBlocks(r, stopper, k);
      var m :| m >= k && (Moves(r, stopper, m) || !CanContinue(r.state(m), stopper));
      WaitPersists(r, stopper, t, k, m);
      if !JoinsIn(r, stopper, k, m) {
        ExitedCanJoin(r, stopper, t, m);
        WaitGoesOn(r, stopper, t, m);
      }
    } else {
      var m :| m > k && (JoinsIn(r, stopper, k, m) || (WaitingAt(r, stopper, t, m) && Left(r, t, m) < Left(r, t, k)));
      if !JoinsIn(r, stopper, k, m) {
        JoinReturns(r, stopper, t, m);
      }
    }
  }

  lemma ExitedCanJoin(r: Infinite, stopper: nat, t: Id, k: nat)
    requires WaitingAt(r, stopper, t, k) && Left(r, t, k) == 0
    ensures CanContinue(r.state(k), stopper)
  {
    hide Inv;
  }

  /**
    pthread_join returns, in every infinite run of any number of controllers of which one stops the
    timer: given that no controller halts inside a call, and that the timer thread gets the mutex
    some time if it is free again and again.
   */
  lemma {:induction false} StopReturns(n: nat, stopper: nat, run: seq<Action>, r: Infinite)
    requires Executable(Init(n), run) && OneStops(run, stopper) && PcOf(After(Init(n), run), stopper).StopJoin?
    requires r.state(0) == After(Init(n), run) && IsRun(r, stopper)
    requires (forall i :: Fair(r, i)) && (forall t :: StronglyFair(r, t))
    ensures exists m :: Joins(r, stopper, m)
  {
    hide Executable, After, IsRun, Fair, StronglyFair, Joins, Advances, WaitingAt;
    var t := WaitStarts(n, stopper, run, r);
    forall m | WaitingAt(r, stopper, t, m) && Left(r, t, m) > 0
      ensures Advances(r, stopper, t, m)
    {
      StrongAdvances(r, stopper, t, m);
    }
    JoinReturns(r, stopper, t, 0);
  }

  lemma WaitStarts(n: nat, stopper: nat, run: seq<Action>, r: Infinite) returns (t: Id)
    requires Executable(Init(n), run) && OneStops(run, stopper) && PcOf(After(Init(n), run), stopper).StopJoin?
    requires r.state(0) == After(Init(n), run)
    ensures WaitingAt(r, stopper, t, 0) && |r.state(0).controllers| == n
  {
    hide Executable, After, Inv;
    InitInv(n, stopper);
    RunKeepsInv(Init(n), stopper, run);
    RunKeepsControllers(Init(n), run);
    JoinWaits(r.state(0), stopper);
    t := r.state(0).current.value;
  }

  lemma {:induction false} RunKeepsControllers(s: State, run: seq<Action>)
    requires Executable(s, run)
    ensures |After(s, run).controllers| == |s.controllers|
    decreases run
  {
    hide Enabled, Do;
    if run != [] {
      SameControllers(s, run[0]);
      RunKeepsControllers(Do(s, run[0]), run[1..]);
    }
  }

  lemma {:induction false} AlwaysAlone(r: Infinite, stopper: nat, k: nat)
    requires IsRun(r, stopper) && |r.state(0).controllers| == 1
    ensures |r.state(k).controllers| == 1
  {
    hide Do, Enabled;
    if k > 0 {
      AlwaysAlone(r, stopper, k - 1);
      assert Follows(r, stopper, k - 1);
      if r.action(k - 1).Some? {
        SameControllers(r.state(k - 1), r.action(k - 1).value);
      }
    }
  }

  lemma AloneIsNotBlocked(s: State, stopper: nat, t: Id)
    requires Waiting(s, stopper, t) && |s.controllers| == 1
    ensures s.threads[t].pc.Exited? || Enabled(s, TimerStep(t))
  {
    hide TimerInv;
  }

  lemma WeakAdvances(r: Infinite, stopper: nat, t: Id, k: nat)
    requires IsRun(r, stopper) && WeaklyFair(r, t) && |r.state(0).controllers| == 1
    requires WaitingAt(r, stopper, t, k) && Left(r, t, k) > 0
    ensures Advances(r, stopper, t, k)
  {
    hide IsRun, Inv, Joins, StepsLeft, Enabled;
    assert StepsOrBlocks(r, t, k);
    var m :| m >= k && (Steps(r, t, m) || !Enabled(r.state(m), TimerStep(t)));
    WaitPersists(r, stopper, t, k, m);
    if WaitingAt(r, stopper, t, m) {
      AlwaysAlone(r, stopper, m);
      AloneIsNotBlocked(r.state(m), stopper, t);
      ExitedIsZero();
      WaitGoesOn(r, stopper, t, m);
      assert Steps(r, t, m) ==> !Moves(r, stopper, m);
    }
    assert JoinsIn(r, stopper, k, m) ==> JoinsIn(r, stopper, k, m + 1);
  }

  lemma ExitedIsZero()
    ensures StepsLeft(Exited) == 0
  {
  }

  /** With one controller, as in the source, it is enough that neither it nor the thread halts. */
  lemma {:induction false} StopReturnsAlone(stopper: nat, run: seq<Action>, r: Infinite)
    requires Executable(Init(1), run) && OneStops(run, stopper) && PcOf(After(Init(1), run), stopper).StopJoin?
    requires r.state(0) == After(Init(1), run) && IsRun(r, stopper)
    requires Fair(r, stopper) && (forall t :: WeaklyFair(r, t))
    ensures exists m :: Joins(r, stopper, m)
  {
    hide Executable, After, IsRun, Fair, WeaklyFair, Joins, Advances, WaitingAt;
    var t := WaitStarts(1, stopper, run, r);
    forall m | WaitingAt(r, stopper, t, m) && Left(r, t, m) > 0
      ensures Advances(r, stopper, t, m)
    {
      WeakAdvances(r, stopper, t, m);
    }
    JoinReturns(r, stopper, t, 0);
  }

  // ---------------------------------------------------------------------------
  // A second controller can keep the thread from the mutex
  // ---------------------------------------------------------------------------

  const PLAIN := Opts(DEFAULT_INTERVAL, false, false, false, "")

  /** Controller 0 waits in pthread_join, the thread for the mutex. */
  function Caught(pc: ControllerPc, mutex: Owner): State {
    State(map[0 := Context(true, PLAIN, 0)], 1, Some(0), mutex, [StopJoin, pc],
          map[0 := Timer(WaitLock, 0, 0, [], 0)], false)
  }

  /** The thread goes to the mutex. */
  const WAIT_RUN := [TimerStep(0), TimerStep(0), TimerStep(0)]

  /** Controller 1 updates the timer again and again. */
  function Starving(): Infinite {
    Infinite(k => StarvedState(k % 4), k => Some(if k % 4 == 0 then Controller(1, CallStart(PLAIN)) else C(1)))
  }

  function StarvedState(phase: nat): State {
    if phase == 0 then Caught(Idle, Unlocked)
    else if phase == 1 then Caught(StartLock(PLAIN), Unlocked)
    else if phase == 2 then Caught(StartInside(PLAIN), HeldByController(1))
    else Caught(Leaving, HeldByController(1))
  }

  /** Before controller 0 sets quit. */
  function AtMutex(): State {
    State(map[0 := Context(false, PLAIN, 0)], 1, Some(0), Unlocked, [Idle, Idle],
          map[0 := Timer(WaitLock, 0, 0, [], 0)], false)
  }

  lemma WaitRuns()
    ensures var s := Running(PLAIN, false, [Idle, Idle]);
      Executable(s, WAIT_RUN) && After(s, WAIT_RUN) == AtMutex()
  {
    var s0, r0 := Running(PLAIN, false, [Idle, Idle]), WAIT_RUN;
    var s1, r1 := Do(s0, r0[0]), r0[1..];
    var s2, r2 := Do(s1, r1[0]), r1[1..];
    assert Do(s2, r2[0]) == AtMutex();
    Step(s2, r2[0], r2);
    Step(s1, r1[0], r1);
    Step(s0, r0[0], r0);
  }

  lemma CatchRuns()
    ensures Executable(AtMutex(), QuitRun(0)) && After(AtMutex(), QuitRun(0)) == Caught(Idle, Unlocked)
  {
    var s0, r0 := AtMutex(), QuitRun(0);
    var s1, r1 := Do(s0, r0[0]), r0[1..];
    var s2, r2 := Do(s1, r1[0]), r1[1..];
    var s3, r3 := Do(s2, r2[0]), r2[1..];
    var s4 := Do(s3, r3[0]);
    assert s4.heap == map[0 := Context(true, PLAIN, 0)];
    assert s4.controllers == [StopJoin, Idle];
    Step(s3, r3[0], r3);
    Step(s2, r2[0], r2);
    Step(s1, r1[0], r1);
    Step(s0, r0[0], r0);
  }

  lemma StarvingIsRun()
    ensures IsRun(Starving(), 0)
  {
    forall k: nat
      ensures Follows(Starving(), 0, k)
    {
      NextPhase(k);
      StarvedStep(k % 4);
    }
  }

  lemma NextPhase(k: nat)
    ensures (k + 1) % 4 == if k % 4 == 3 then 0 else k % 4 + 1
  {
  }

  lemma StarvedStep(phase: nat)
    requires phase < 4
    ensures var s, a := StarvedState(phase), if phase == 0 then Controller(1, CallStart(PLAIN)) else C(1);
      && Enabled(s, a) && OneStops([a], 0)
      && Do(s, a) == StarvedState(if phase == 3 then 0 else phase + 1)
  {
    var s, a := StarvedState(phase), if phase == 0 then Controller(1, CallStart(PLAIN)) else C(1);
    var s' := Do(s, a);
    assert s'.controllers == [StopJoin, s'.controllers[1]];
    assert s'.heap == map[0 := Context(true, PLAIN, 0)];
  }

  lemma StarvingIsFair(i: nat)
    ensures Fair(Starving(), i)
  {
    forall k
      ensures MovesOrBlocks(Starving(), i, k)
    {
      var m := 4 * k;
      assert Starving().state(m) == Caught(Idle, Unlocked);
      assert !CanContinue(Starving().state(m), i);
    }
  }

  lemma StarvingIsWeaklyFair(t: Id)
    ensures WeaklyFair(Starving(), t)
  {
    forall k
      ensures StepsOrBlocks(Starving(), t, k)
    {
      var m := 4 * k + 2;
      assert Starving().state(m) == StarvedState(2);
      assert !Enabled(Starving().state(m), TimerStep(t));
    }
  }

  /** Controller 0 gets to its pthread_join, nobody halts, and it never returns. */
  ghost predicate Starves(n: nat, run: seq<Action>, r: Infinite) {
    && Executable(Init(n), run) && OneStops(run, 0)
    && r.state(0) == After(Init(n), run) && PcOf(r.state(0), 0).StopJoin?
    && IsRun(r, 0) && (forall i :: Fair(r, i)) && (forall t :: WeaklyFair(r, t))
    && forall m :: !Joins(r, 0, m)
  }

  /** With a second controller that is not enough, although it never stops the timer. */
  lemma {:induction false} StopStarves()
    ensures exists run, r :: Starves(2, run, r)
  {
    hide Executable, After, StartRun, QuitRun, IsRun, Fair, WeaklyFair, Running;
    var run := StartRun(0, PLAIN) + (WAIT_RUN + QuitRun(0));
    assert Init(2).controllers == [Idle, Idle] && InitialOpts(PLAIN, "") == PLAIN;
    StartRuns(2, 0, PLAIN);
    WaitRuns();
    CatchRuns();
    RunConcat(Running(PLAIN, false, [Idle, Idle]), WAIT_RUN, QuitRun(0));
    RunConcat(Init(2), StartRun(0, PLAIN), WAIT_RUN + QuitRun(0));
    CatchStops();
    StarvingIsRun();
    forall i ensures Fair(Starving(), i) { StarvingIsFair(i); }
    forall t ensures WeaklyFair(Starving(), t) { StarvingIsWeaklyFair(t); }
    assert forall m :: !Joins(Starving(), 0, m);
    assert Starves(2, run, Starving());
  }

  lemma CatchStops()
    ensures OneStops(StartRun(0, PLAIN) + (WAIT_RUN + QuitRun(0)), 0)
  {
  }
}
