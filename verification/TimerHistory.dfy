/**
  What a timer does with what it was asked for: over every run, the options of its context are those
  of the starts and updates made on it, and each poll counts by the interval the context had when
  the thread read it (src/bas/proc/dbgthread.c).
 */
module TimerHistory {
  import opened CText
  import opened TimerCadence
  import opened TimerProtocol

  // ---------------------------------------------------------------------------
  // What a run asks for
  // ---------------------------------------------------------------------------

  /** A start carried out on a context: the caller's options, and the mkstemp name. */
  datatype Request = Request(opts: Opts, temp: string)

  /**
    What a run has asked for so far: the options of each controller's last call of start, the starts
    carried out on each context, the intervals that each thread was to read, and how often it slept.
   */
  datatype History = History(asked: nat -> Option<Opts>, requests: Id -> seq<Request>, copied: Id -> seq<int>,
                             slept: Id -> nat)

  /** The file name: the last one given that is not empty, else the temporary one of a first start with dumps. */
  function FileOf(requests: seq<Request>): string
    requires requests != []
  {
    var last := requests[|requests| - 1];
    if last.opts.file != "" then last.opts.file
    else if |requests| > 1 then FileOf(requests[..|requests| - 1])
    else if last.opts.stackdump then last.temp
    else ""
  }

  /** The options that these starts ask for: the last one's, with 2000 ms for no interval. */
  function Wanted(requests: seq<Request>): Opts
    requires requests != []
  {
    var last := requests[|requests| - 1].opts;
    Opts(if last.interval > 0 then last.interval else 2000, last.stackdump, last.health, last.dumpFd, FileOf(requests))
  }

  /** The context that an action starts or updates: the current one, or else a new one. */
  function Target(s: State, a: Action): Option<Id> {
    match a
    case Controller(i, Continue(ok, _)) =>
      if !(i < |s.controllers| && s.controllers[i].StartInside?) then None
      else if s.current.Some? then s.current
      else if ok then Some(s.nextId)
      else None
    case _ => None
  }

  /** The action is thread t's copy of its context's options. */
  predicate Copies(s: State, a: Action, t: Id) {
    a == TimerStep(t) && t in s.threads && s.threads[t].pc.Read?
  }

  function AskedNext(h: History, a: Action, i: nat): Option<Opts> {
    if a.Controller? && a.i == i && a.choice.CallStart? then Some(a.choice.opts) else h.asked(i)
  }

  function RequestsNext(h: History, s: State, a: Action, x: Id): seq<Request> {
    if Target(s, a) == Some(x) && h.asked(a.i).Some? then
      h.requests(x) + [Request(h.asked(a.i).value, a.choice.temp)]
    else h.requests(x)
  }

  function CopiedNext(h: History, s: State, a: Action, t: Id): seq<int> {
    if Copies(s, a, t) && h.requests(t) != [] then h.copied(t) + [Wanted(h.requests(t)).interval] else h.copied(t)
  }

  function SleptNext(h: History, s: State, a: Action, t: Id): nat {
    h.slept(t) + if a == TimerStep(t) && t in s.threads && s.threads[t].pc.Sleep? then 1 else 0
  }

  function Extend(h: History, s: State, a: Action): History {
    History((i: nat) => AskedNext(h, a, i), (x: Id) => RequestsNext(h, s, a, x), (t: Id) => CopiedNext(h, s, a, t),
            (t: Id) => SleptNext(h, s, a, t))
  }

  const NO_HISTORY := History(i => None, x => [], t => [], t => 0)

  function HistoryFrom(h: History, s: State, run: seq<Action>): History
    requires Executable(s, run)
    decreases run
  {
    if run == [] then h else HistoryFrom(Extend(h, s, run[0]), Do(s, run[0]), run[1..])
  }

  /** What a run from the start asks for. */
  function HistoryOf(n: nat, run: seq<Action>): History
    requires Executable(Init(n), run)
  {
    HistoryFrom(NO_HISTORY, Init(n), run)
  }

  // ---------------------------------------------------------------------------
  // What the state makes of it
  // ---------------------------------------------------------------------------

  /** A call of start under way carries the options it was called with. */
  ghost predicate CallsExplained(s: State, h: History) {
    forall i :: 0 <= i < |s.controllers| && (s.controllers[i].StartLock? || s.controllers[i].StartInside?) ==>
      h.asked(i) == Some(s.controllers[i].opts)
  }

  /** A context has the options it was asked for. */
  ghost predicate ContextExplained(s: State, h: History, x: Id)
    requires x in s.heap
  {
    h.requests(x) != [] && s.heap[x].opts == Wanted(h.requests(x))
  }

  /** A thread has polled with the intervals it read; the last one may still be to come. */
  predicate ThreadExplained(timer: Timer, copied: seq<int>) {
    if timer.pc.Unlock? || timer.pc.Work? then
      copied != [] && timer.polls == copied[..|copied| - 1] && timer.interval == copied[|copied| - 1] > 0
    else timer.polls == copied
  }

  /** Every completed poll has taken one sleep; the poll under way may have taken its own. */
  predicate SleepExplained(timer: Timer, slept: nat) {
    match timer.pc
    case Top => slept == |timer.polls|
    case Sleep => slept == |timer.polls|
    case Act => slept == |timer.polls|
    case Exited => |timer.polls| <= slept <= |timer.polls| + 1
    case _ => slept == |timer.polls| + 1
  }

  /** Contexts and threads that do not exist yet have no history. */
  ghost predicate NewIsNew(s: State, h: History) {
    && (forall x :: x >= s.nextId ==> h.requests(x) == [] && h.copied(x) == [] && h.slept(x) == 0)
    && (forall i :: 0 <= i < |s.controllers| && s.controllers[i].StartCreate? ==>
          h.copied(s.controllers[i].ctx) == [] && h.slept(s.controllers[i].ctx) == 0)
  }

  ghost predicate Explained(s: State, h: History) {
    && CallsExplained(s, h) && NewIsNew(s, h)
    && (forall x :: x in s.heap ==> ContextExplained(s, h, x))
    && (forall t :: t in s.threads ==>
          ThreadExplained(s.threads[t], h.copied(t)) && SleepExplained(s.threads[t], h.slept(t)))
  }

  lemma InitExplained(n: nat)
    ensures Explained(Init(n), NO_HISTORY)
  {
  }

  // ---------------------------------------------------------------------------
  // Steps
  // ---------------------------------------------------------------------------

  /** What the invariant gives for a thread: it is the only one, and its context is allocated. */
  lemma OnlyThread(s: State, stopper: nat, t: Id)
    requires Inv(s, stopper) && t in s.threads
    ensures s.threads.Keys == {t} && t in s.heap && t < s.nextId
    ensures forall i :: 0 <= i < |s.controllers| && s.controllers[i].StartCreate? ==> s.controllers[i].ctx != t
  {
    hide TimerInv;
    forall i | 0 <= i < |s.controllers| && s.controllers[i].StartCreate?
      ensures s.controllers[i].ctx != t
    {
      HolderIs(s, stopper, i);
    }
  }

  lemma CopyExplained(s: State, h: History, t: Id)
    requires t in s.threads && t in s.heap && Enabled(s, TimerStep(t))
    requires ThreadExplained(s.threads[t], h.copied(t)) && ContextExplained(s, h, t)
    ensures t in DoTimer(s, t).threads
    ensures ThreadExplained(DoTimer(s, t).threads[t], CopiedNext(h, s, TimerStep(t), t))
  {
    hide Wanted, DoPoll;
    assert Wanted(h.requests(t)).interval > 0 by { WantedIsPositive(h.requests(t)); }
    if s.threads[t].pc.Work? {
      PollExplained(s, t, h.copied(t));
    }
  }

  lemma WantedIsPositive(requests: seq<Request>)
    requires requests != []
    ensures Wanted(requests).interval > 0
  {
    hide FileOf;
  }

  lemma PollExplained(s: State, t: Id, copied: seq<int>)
    requires t in s.threads && t in s.heap && s.threads[t].pc.Work? && ThreadExplained(s.threads[t], copied)
    ensures t in DoPoll(s, t).threads && ThreadExplained(DoPoll(s, t).threads[t], copied)
  {
  }

  lemma SleepsOn(s: State, h: History, t: Id)
    requires t in s.threads && t in s.heap && Enabled(s, TimerStep(t)) && SleepExplained(s.threads[t], h.slept(t))
    ensures t in DoTimer(s, t).threads
    ensures SleepExplained(DoTimer(s, t).threads[t], SleptNext(h, s, TimerStep(t), t))
  {
  }

  lemma TimerLeaves(s: State, t: Id)
    requires Enabled(s, TimerStep(t)) && t in s.heap
    ensures var s' := DoTimer(s, t);
      && s'.controllers == s.controllers && s'.nextId == s.nextId && s'.threads.Keys == s.threads.Keys
      && s'.heap.Keys == s.heap.Keys && s'.heap[t].opts == s.heap[t].opts
      && forall x :: x in s.heap && x != t ==> s'.heap[x] == s.heap[x]
  {
  }

  lemma TimerExplained(s: State, stopper: nat, h: History, t: Id)
    requires Inv(s, stopper) && Explained(s, h) && Enabled(s, TimerStep(t))
    ensures Explained(DoTimer(s, t), Extend(h, s, TimerStep(t)))
  {
    hide Inv, DoTimer, ThreadExplained, SleepExplained, Wanted;
    OnlyThread(s, stopper, t);
    CopyExplained(s, h, t);
    SleepsOn(s, h, t);
    TimerLeaves(s, t);
  }

  lemma WantedFirst(r: Request)
    ensures Wanted([r]) == InitialOpts(r.opts, r.temp)
  {
  }

  lemma WantedNext(requests: seq<Request>, r: Request)
    requires requests != []
    ensures Wanted(requests + [r]) == UpdatedOpts(Wanted(requests), r.opts)
  {
    var all := requests + [r];
    assert all[..|all| - 1] == requests && all[|all| - 1] == r;
  }

  lemma CallsNext(s: State, h: History, i: nat, choice: Choice)
    requires CallsExplained(s, h) && Enabled(s, Controller(i, choice))
    ensures CallsExplained(DoController(s, i, choice), Extend(h, s, Controller(i, choice)))
  {
    var s' := DoController(s, i, choice);
    assert s'.controllers == s.controllers[i := s'.controllers[i]];
    assert s.controllers[i].Idle? || s.controllers[i].StartLock? || !s'.controllers[i].StartInside?;
  }

  /** A start or update with the mutex. */
  lemma FillContexts(s: State, stopper: nat, h: History, i: nat, choice: Choice)
    requires Inv(s, stopper) && Explained(s, h) && Enabled(s, Controller(i, choice)) && s.controllers[i].StartInside?
    ensures var s', h' := DoController(s, i, choice), Extend(h, s, Controller(i, choice));
      forall x :: x in s'.heap ==> ContextExplained(s', h', x)
  {
    hide PcsInv, TimersHold, TimerInv, Wanted, ThreadExplained, SleepExplained, InitialOpts, UpdatedOpts;
    var s', a := DoController(s, i, choice), Controller(i, choice);
    var o, target := s.controllers[i].opts, Target(s, a);
    assert h.asked(i) == Some(o);
    if target.Some? {
      var r := Request(o, choice.temp);
      assert RequestsNext(h, s, a, target.value) == h.requests(target.value) + [r];
      if s.current.Some? {
        WantedNext(h.requests(target.value), r);
      } else {
        WantedFirst(r);
        assert [] + [r] == [r];
      }
    }
  }

  lemma OtherContexts(s: State, h: History, i: nat, choice: Choice)
    requires forall x :: x in s.heap ==> ContextExplained(s, h, x)
    requires Enabled(s, Controller(i, choice)) && !s.controllers[i].StartInside?
    ensures var s', h' := DoController(s, i, choice), Extend(h, s, Controller(i, choice));
      forall x :: x in s'.heap ==> ContextExplained(s', h', x)
  {
    hide Wanted;
    var s' := DoController(s, i, choice);
    assert forall x :: x in s'.heap ==> x in s.heap && s'.heap[x].opts == s.heap[x].opts;
  }

  lemma ThreadsNext(s: State, h: History, i: nat, choice: Choice)
    requires Explained(s, h) && Enabled(s, Controller(i, choice))
    ensures var s', h' := DoController(s, i, choice), Extend(h, s, Controller(i, choice));
      forall t :: t in s'.threads ==>
        ThreadExplained(s'.threads[t], h'.copied(t)) && SleepExplained(s'.threads[t], h'.slept(t))
  {
    hide ContextExplained, CallsExplained;
    var s' := DoController(s, i, choice);
    assert s.controllers[i].StartCreate? ==> h.copied(s.controllers[i].ctx) == [];
    forall t | t in s'.threads
      ensures ThreadExplained(s'.threads[t], h.copied(t)) && SleepExplained(s'.threads[t], h.slept(t))
    {
      ThreadsKept(s, i, choice, t);
    }
  }

  /** A controller leaves a thread as it is, or creates it. */
  lemma ThreadsKept(s: State, i: nat, choice: Choice, t: Id)
    requires Enabled(s, Controller(i, choice)) && t in DoController(s, i, choice).threads
    ensures var timer := DoController(s, i, choice).threads[t];
      || (t in s.threads && timer == s.threads[t])
      || (timer == Timer(Top, 0, 0, [], 0) && s.controllers[i] == StartCreate(t))
  {
  }

  lemma NewNext(s: State, h: History, i: nat, choice: Choice)
    requires NewIsNew(s, h) && Enabled(s, Controller(i, choice))
    requires s.controllers[i].StartInside? && s.current.Some? ==> s.current.value < s.nextId
    ensures NewIsNew(DoController(s, i, choice), Extend(h, s, Controller(i, choice)))
  {
    hide DoController, Target, Enabled;
    OnlyMoves(s, i, choice);
    IdsGrow(s, i, choice);
  }

  lemma OnlyMoves(s: State, i: nat, choice: Choice)
    requires Enabled(s, Controller(i, choice))
    ensures i < |s.controllers| && |DoController(s, i, choice).controllers| == |s.controllers|
    ensures var pcs := DoController(s, i, choice).controllers; pcs == s.controllers[i := pcs[i]]
  {
    hide InitialOpts, UpdatedOpts, JoinFaults;
    var s' := DoController(s, i, choice);
    assert s'.controllers == s.controllers[i := s'.controllers[i]];
  }

  lemma IdsGrow(s: State, i: nat, choice: Choice)
    requires Enabled(s, Controller(i, choice))
    requires s.controllers[i].StartInside? && s.current.Some? ==> s.current.value < s.nextId
    ensures var s' := DoController(s, i, choice);
      && i < |s'.controllers| && s'.nextId >= s.nextId
      && (s'.controllers[i].StartCreate? ==> s'.controllers[i].ctx == s.nextId)
      && (Target(s, Controller(i, choice)).Some? ==> Target(s, Controller(i, choice)).value < s'.nextId)
  {
    hide InitialOpts, UpdatedOpts, JoinFaults;
    if !s.controllers[i].StartInside? {
      assert Target(s, Controller(i, choice)) == None;
    }
  }

  lemma CurrentIsOld(s: State, stopper: nat)
    requires Inv(s, stopper) && s.current.Some?
    ensures s.current.value < s.nextId
  {
    hide PcsInv, TimerInv, TimersHold;
  }

  lemma StepExplained(s: State, stopper: nat, h: History, a: Action)
    requires Inv(s, stopper) && Explained(s, h) && Enabled(s, a)
    ensures Explained(Do(s, a), Extend(h, s, a))
  {
    hide Inv, DoTimer, DoController, CallsExplained, NewIsNew, ContextExplained, ThreadExplained, SleepExplained;
    match a
    case TimerStep(t) => TimerExplained(s, stopper, h, t);
    case Controller(i, choice) =>
      CallsNext(s, h, i, choice);
      ThreadsNext(s, h, i, choice);
      if s.current.Some? {
        CurrentIsOld(s, stopper);
      }
      NewNext(s, h, i, choice);
      if s.controllers[i].StartInside? {
        FillContexts(s, stopper, h, i, choice);
      } else {
        OtherContexts(s, h, i, choice);
      }
  }

  lemma {:induction false} RunExplained(s: State, stopper: nat, h: History, run: seq<Action>)
    requires Inv(s, stopper) && Explained(s, h) && Executable(s, run) && OneStops(run, stopper)
    ensures Explained(After(s, run), HistoryFrom(h, s, run))
    decreases run
  {
    hide Inv, Explained, Enabled, Do, Extend;
    if run != [] {
      assert OneStops([run[0]], stopper);
      StepKeepsInv(s, stopper, run[0]);
      StepExplained(s, stopper, h, run[0]);
      RunExplained(Do(s, run[0]), stopper, Extend(h, s, run[0]), run[1..]);
    }
  }

  // ---------------------------------------------------------------------------
  // Main results
  // ---------------------------------------------------------------------------

  /**
    In every run in which one controller stops the timer: the allocated context has the options of
    the starts and updates carried out on it, and its interval is that of the last one, or 2000 ms;
    the completed polls of its thread have the intervals that the context had when the thread read
    them, with at most one more read whose poll is not completed; each poll has taken one sleep of
    100 ms; and the counter is what the polls call for.
   */
  lemma {:induction false} PollsAreAsked(n: nat, stopper: nat, run: seq<Action>)
    requires Executable(Init(n), run) && OneStops(run, stopper)
    ensures var s, h := After(Init(n), run), HistoryOf(n, run);
      && (forall x :: x in s.heap ==> h.requests(x) != [] && s.heap[x].opts == Wanted(h.requests(x)))
      && (forall t :: t in s.threads ==>
            && s.threads[t].polls <= h.copied(t) && |h.copied(t)| <= |s.threads[t].polls| + 1
            && |s.threads[t].polls| <= h.slept(t) <= |s.threads[t].polls| + 1
            && t in s.heap && s.heap[t].counter == Fires(s.threads[t].polls))
  {
    hide Executable, After, HistoryFrom, Inv, Wanted, NewIsNew, CallsExplained;
    InitInv(n, stopper);
    InitExplained(n);
    RunKeepsInv(Init(n), stopper, run);
    RunExplained(Init(n), stopper, NO_HISTORY, run);
    InvIsSafe(After(Init(n), run), stopper);
  }

  // ---------------------------------------------------------------------------
  // With one interval
  // ---------------------------------------------------------------------------

  /** Every call of start in the run asks for this interval. */
  predicate AlwaysAsks(run: seq<Action>, interval: int) {
    forall k :: 0 <= k < |run| && run[k].Controller? && run[k].choice.CallStart?
      ==> run[k].choice.opts.interval == interval
  }

  ghost predicate OneInterval(h: History, interval: int) {
    && (forall i :: h.asked(i).Some? ==> h.asked(i).value.interval == interval)
    && (forall x :: AllAsk(h.requests(x), interval))
    && (forall t :: AllAre(h.copied(t), interval))
  }

  predicate AllAsk(requests: seq<Request>, interval: int) {
    forall k :: 0 <= k < |requests| ==> requests[k].opts.interval == interval
  }

  predicate AllAre(copied: seq<int>, interval: int) {
    forall k :: 0 <= k < |copied| ==> copied[k] == interval
  }

  lemma ExtendOne(h: History, s: State, a: Action, interval: int)
    requires OneInterval(h, interval) && interval > 0 && AlwaysAsks([a], interval)
    ensures OneInterval(Extend(h, s, a), interval)
  {
    hide FileOf;
    var h' := Extend(h, s, a);
    assert [a][0] == a;
    forall x: Id
      ensures AllAsk(h'.requests(x), interval) && AllAre(h'.copied(x), interval)
    {
      assert AllAsk(h.requests(x), interval) && AllAre(h.copied(x), interval);
    }
  }

  lemma {:induction false} HistoryOne(h: History, s: State, run: seq<Action>, interval: int)
    requires OneInterval(h, interval) && interval > 0 && Executable(s, run) && AlwaysAsks(run, interval)
    ensures OneInterval(HistoryFrom(h, s, run), interval)
    decreases run
  {
    hide OneInterval, Enabled, Do, Extend;
    if run != [] {
      assert AlwaysAsks([run[0]], interval);
      ExtendOne(h, s, run[0], interval);
      HistoryOne(Extend(h, s, run[0]), Do(s, run[0]), run[1..], interval);
    }
  }

  /**
    A timer asked for I ms, by every start and update of a run, polls with I: after p polls its
    counter is p div ceil(I / 100).
   */
  lemma {:induction false} FiresAsAsked(n: nat, stopper: nat, run: seq<Action>, interval: int)
    requires Executable(Init(n), run) && OneStops(run, stopper) && AlwaysAsks(run, interval) && interval > 0
    ensures var s := After(Init(n), run);
      forall t :: t in s.threads ==>
        && t in s.heap && s.threads[t].polls == Steady(interval, |s.threads[t].polls|)
        && s.heap[t].counter == |s.threads[t].polls| / ((interval + 99) / 100)
  {
    hide Executable, After, HistoryFrom, Accumulated, Fires, Wanted;
    PollsAreAsked(n, stopper, run);
    HistoryOne(NO_HISTORY, Init(n), run, interval);
    var s, h := After(Init(n), run), HistoryOf(n, run);
    forall t | t in s.threads
      ensures s.threads[t].polls == Steady(interval, |s.threads[t].polls|)
      ensures Fires(s.threads[t].polls) == |s.threads[t].polls| / ((interval + 99) / 100)
    {
      var polls := s.threads[t].polls;
      assert AllAre(h.copied(t), interval);
      assert forall k :: 0 <= k < |polls| ==> polls[k] == h.copied(t)[k];
      SteadyCadence(interval, |polls|);
    }
  }
}
