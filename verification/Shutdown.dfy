/** Admission of handlers, sealing, waiting and closing, as interleaved atomic steps. */
module Shutdown {
  /** ServeHTTP of the handler tracker; the mutex is held in the three Locked states. */
  datatype Handler = Arrived | Locked | LockedAdmitted | LockedRejected | Running | Finished | Rejected

  datatype Holder = Free | HeldBy(handler: nat) | HeldByShutdown

  /** Where Serve and shutdownApplication stand. */
  datatype Main =
    | Starting
    | Serving
    | WorkerCancelled
    | ServerStopped(graceful: bool)
    | Sealing(graceful: bool)
    | SealSet(graceful: bool)
    | Sealed(graceful: bool)
    | WaitingForHandlers
    | HandlersGone
    | Returned

  /** The goroutine that closes the repository: after everything has stopped, or after waiting itself. */
  datatype Closer = NoCloser | Waiting | WaitedForHandlers | Closing | Closed

  datatype State = State(
    mutex: Holder, isSealed: bool,
    /** The wait group's counter, and whether anybody has called Wait. */
    counter: int, waitCalled: bool,
    handlers: map<nat, Handler>, main: Main, closer: Closer,
    workerStarted: bool, cancelled: bool, workerDone: bool,
    closes: nat)

  const START := State(Free, false, 0, false, map[], Starting, NoCloser, false, false, false, 0)

  datatype Event =
    | Arrive(handler: nat)
    | Lock(handler: nat)
    | Admit(handler: nat)
    | Unlock(handler: nat)
    | Finish(handler: nat)
    | StartupFails
    | StartServing
    | CancelWorker
    | ShutdownReturns(graceful: bool)
    | SealLock
    | SealStep
    | SealUnlock
    | SelectWorker(timedOut: bool)
    | WaitReturns
    | CloseOrGiveUp(expired: bool)
    | WorkerStops
    | CloserCallsWait
    | CloserWaits
    | CloserReceives
    | Close

  function Is(s: State, h: nat, at: Handler): bool {
    h in s.handlers && s.handlers[h] == at
  }

  function Move(s: State, h: nat, to: Handler): State {
    s.(handlers := s.handlers[h := to])
  }

  predicate OfHandler(e: Event) {
    e.Arrive? || e.Lock? || e.Admit? || e.Unlock? || e.Finish?
  }

  predicate OfSeal(e: Event) {
    e.SealLock? || e.SealStep? || e.SealUnlock?
  }

  predicate OfWait(e: Event) {
    e.SelectWorker? || e.WaitReturns? || e.CloseOrGiveUp?
  }

  predicate OfCloser(e: Event) {
    e.WorkerStops? || e.CloserCallsWait? || e.CloserWaits? || e.CloserReceives? || e.Close?
  }

  function NextHandler(s: State, e: Event): State
    requires OfHandler(e)
  {
    match e
    case Arrive(h) => if h !in s.handlers && s.workerStarted then Move(s, h, Arrived) else s
    case Lock(h) => if Is(s, h, Arrived) && s.mutex == Free then Move(s, h, Locked).(mutex := HeldBy(h)) else s
    case Admit(h) =>
      if !Is(s, h, Locked) then s
      else if s.isSealed then Move(s, h, LockedRejected)
      else Move(s, h, LockedAdmitted).(counter := s.counter + 1)
    case Unlock(h) =>
      if Is(s, h, LockedAdmitted) then Move(s, h, Running).(mutex := Free)
      else if Is(s, h, LockedRejected) then Move(s, h, Rejected).(mutex := Free)
      else s
    case Finish(h) => if Is(s, h, Running) then Move(s, h, Finished).(counter := s.counter - 1) else s
  }

  /** Serve, until its server has stopped. */
  function NextServe(s: State, e: Event): State {
    match e
    case StartupFails =>
      if s.main == Starting && s.closer == NoCloser then s.(main := Returned, closer := Closing) else s
    case StartServing => if s.main == Starting then s.(main := Serving, workerStarted := true) else s
    case CancelWorker => if s.main == Serving then s.(main := WorkerCancelled, cancelled := true) else s
    case ShutdownReturns(graceful) => if s.main == WorkerCancelled then s.(main := ServerStopped(graceful)) else s
    case _ => s
  }

  /** seal, with its mutex. */
  function NextSeal(s: State, e: Event): State {
    match e
    case SealLock =>
      if s.main.ServerStopped? && s.mutex == Free then s.(main := Sealing(s.main.graceful), mutex := HeldByShutdown)
      else s
    case SealStep => if s.main.Sealing? then s.(main := SealSet(s.main.graceful), isSealed := true) else s
    case SealUnlock => if s.main.SealSet? then s.(main := Sealed(s.main.graceful), mutex := Free) else s
    case _ => s
  }

  /** shutdownApplication after the seal: both paths, up to the close. */
  function NextWait(s: State, e: Event): State {
    match e
    case SelectWorker(timedOut) =>
      if !s.main.Sealed? || (!timedOut && !s.workerDone) then s
      else if s.main.graceful && !timedOut then s.(main := WaitingForHandlers, waitCalled := true)
      else s.(main := Returned, closer := Waiting)
    case WaitReturns => if s.main == WaitingForHandlers && s.counter == 0 then s.(main := HandlersGone) else s
    case CloseOrGiveUp(expired) =>
      if s.main != HandlersGone then s
      else if expired then s.(main := Returned)
      else s.(main := Returned, closer := Closing)
    case _ => s
  }

  function NextCloser(s: State, e: Event): State {
    match e
    case WorkerStops => if s.workerStarted && s.cancelled then s.(workerDone := true) else s
    case CloserCallsWait => if s.closer == Waiting then s.(waitCalled := true) else s
    case CloserWaits =>
      if s.closer == Waiting && s.waitCalled && s.counter == 0 then s.(closer := WaitedForHandlers) else s
    case CloserReceives => if s.closer == WaitedForHandlers && s.workerDone then s.(closer := Closing) else s
    case Close => if s.closer == Closing then s.(closer := Closed, closes := s.closes + 1) else s
    case _ => s
  }

  function NextOther(s: State, e: Event): State {
    if OfSeal(e) then NextSeal(s, e)
    else if OfWait(e) then NextWait(s, e)
    else if OfCloser(e) then NextCloser(s, e)
    else NextServe(s, e)
  }

  function Next(s: State, e: Event): State {
    if OfHandler(e) then NextHandler(s, e) else NextOther(s, e)
  }

  function Run(events: seq<Event>): State {
    if events == [] then START else Next(Run(events[..|events| - 1]), events[|events| - 1])
  }

  // ----- What every run keeps -----

  function ActiveIn(handlers: map<nat, Handler>): set<nat> {
    set h | h in handlers && (handlers[h] == LockedAdmitted || handlers[h] == Running)
  }

  /** Handlers that may use the repository. */
  function Active(s: State): set<nat> {
    ActiveIn(s.handlers)
  }

  predicate WorkerRunning(s: State) {
    s.workerStarted && !s.workerDone
  }

  predicate HasSealed(main: Main) {
    main.SealSet? || main.Sealed? || main == WaitingForHandlers || main == HandlersGone
  }

  /** A handler is in one of the Locked states exactly while it holds the mutex. */
  ghost predicate HoldersValid(handlers: map<nat, Handler>, mutex: Holder) {
    && (forall h :: h in handlers ==>
          ((handlers[h].Locked? || handlers[h].LockedAdmitted? || handlers[h].LockedRejected?) <==> mutex == HeldBy(h)))
    && (mutex.HeldBy? ==> mutex.handler in handlers)
  }

  ghost predicate MutexValid(s: State) {
    HoldersValid(s.handlers, s.mutex) && (s.mutex == HeldByShutdown <==> s.main.Sealing? || s.main.SealSet?)
  }

  ghost predicate NoneAdmitting(handlers: map<nat, Handler>) {
    forall h :: h in handlers ==> !handlers[h].LockedAdmitted?
  }

  ghost predicate SealValid(s: State) {
    && (HasSealed(s.main) ==> s.isSealed)
    && (s.main.Starting? ==> s.closer == NoCloser && !s.workerStarted)
    && (!s.workerStarted ==> s.handlers == map[])
    && (s.isSealed ==> HasSealed(s.main) || s.main == Returned)
    && (s.isSealed ==> NoneAdmitting(s.handlers))
  }

  /** The wait group counts the active handlers, and who has waited met none. */
  ghost predicate WaitValid(s: State) {
    && s.counter == |Active(s)|
    && (s.waitCalled ==> s.isSealed && !s.main.SealSet?)
    && (s.main == WaitingForHandlers || s.main == HandlersGone ==> s.workerDone && s.closer == NoCloser)
    && (s.main == HandlersGone ==> Active(s) == {})
  }

  ghost predicate CloserValid(s: State) {
    && (s.closer != NoCloser ==> s.main == Returned)
    && (s.closer == Waiting || s.closer == WaitedForHandlers ==> s.isSealed)
    && (s.closer == WaitedForHandlers || s.closer == Closing || s.closer == Closed ==> Active(s) == {})
    && (s.closer == Closing || s.closer == Closed ==> !WorkerRunning(s))
    && s.closes == (if s.closer == Closed then 1 else 0)
    && (s.main == Returned && !s.isSealed ==> !s.workerStarted)
  }

  ghost predicate Valid(s: State) {
    MutexValid(s) && SealValid(s) && WaitValid(s) && CloserValid(s)
  }

  predicate IsActive(at: Handler) {
    at.LockedAdmitted? || at.Running?
  }

  lemma ActiveSets(s: State, h: nat, to: Handler)
    ensures var was, t := h in s.handlers && IsActive(s.handlers[h]), Move(s, h, to);
            && (h in Active(s) <==> was)
            && Active(t) == if IsActive(to) then Active(s) + {h} else Active(s) - {h}
  {
  }

  /** One handler's move changes the active handlers by that handler at most. */
  lemma ActiveAfterMove(s: State, h: nat, to: Handler)
    ensures var was := h in s.handlers && IsActive(s.handlers[h]);
            && (was == IsActive(to) ==> Active(Move(s, h, to)) == Active(s))
            && (!was && IsActive(to) ==> |Active(Move(s, h, to))| == |Active(s)| + 1)
            && (was && !IsActive(to) ==> |Active(Move(s, h, to))| == |Active(s)| - 1
                                         && Active(Move(s, h, to)) <= Active(s))
            && (was ==> Active(s) != {})
  {
    hide ActiveIn;
    var was := h in s.handlers && IsActive(s.handlers[h]);
    ActiveSets(s, h, to);
    if was && !IsActive(to) {
      assert |Active(s) - {h}| == |Active(s)| - 1;
    }
  }

  /** The mutex is with nobody, or with shutdownApplication: no handler is between Lock and Unlock. */
  lemma NoHolder(handlers: map<nat, Handler>)
    ensures HoldersValid(handlers, Free) <==> HoldersValid(handlers, HeldByShutdown)
    ensures HoldersValid(handlers, HeldByShutdown) ==> NoneAdmitting(handlers)
  {
  }

  lemma NoneActive(handlers: map<nat, Handler>)
    ensures handlers == map[] ==> ActiveIn(handlers) == {}
    ensures |ActiveIn(handlers)| == 0 ==> ActiveIn(handlers) == {}
  {
  }

  lemma ArriveKeepsValid(s: State, h: nat)
    requires Valid(s)
    ensures Valid(NextHandler(s, Arrive(h)))
  {
    hide ActiveIn;
    ActiveAfterMove(s, h, Arrived);
  }

  lemma LockKeepsValid(s: State, h: nat)
    requires Valid(s)
    ensures Valid(NextHandler(s, Lock(h)))
  {
    hide ActiveIn;
    ActiveAfterMove(s, h, Locked);
  }

  lemma AdmitKeepsValid(s: State, h: nat)
    requires Valid(s)
    ensures Valid(NextHandler(s, Admit(h)))
  {
    hide ActiveIn;
    ActiveAfterMove(s, h, LockedRejected);
    ActiveAfterMove(s, h, LockedAdmitted);
    if Is(s, h, Locked) && !s.isSealed {
      NotWaiting(s);
    }
  }

  /** Before the seal nobody waits for handlers, or has waited. */
  lemma NotWaiting(s: State)
    requires Valid(s) && !s.isSealed && s.workerStarted
    ensures s.closer == NoCloser && s.main != WaitingForHandlers && s.main != HandlersGone && !s.waitCalled
  {
  }

  lemma UnlockKeepsValid(s: State, h: nat)
    requires Valid(s)
    ensures Valid(NextHandler(s, Unlock(h)))
  {
    var to := if Is(s, h, LockedAdmitted) then Running else Rejected;
    ActiveAfterMove(s, h, to);
    UnlockKeepsLocks(s, h);
    hide ActiveIn, MutexValid, SealValid;
  }

  lemma UnlockKeepsLocks(s: State, h: nat)
    requires MutexValid(s) && SealValid(s)
    ensures MutexValid(NextHandler(s, Unlock(h))) && SealValid(NextHandler(s, Unlock(h)))
  {
  }

  lemma FinishKeepsValid(s: State, h: nat)
    requires Valid(s)
    ensures Valid(NextHandler(s, Finish(h)))
  {
    hide ActiveIn;
    ActiveAfterMove(s, h, Finished);
  }

  lemma HandlerKeepsValid(s: State, e: Event)
    requires Valid(s) && OfHandler(e)
    ensures Valid(NextHandler(s, e))
  {
    hide Valid, NextHandler;
    match e
    case Arrive(h) => ArriveKeepsValid(s, h);
    case Lock(h) => LockKeepsValid(s, h);
    case Admit(h) => AdmitKeepsValid(s, h);
    case Unlock(h) => UnlockKeepsValid(s, h);
    case Finish(h) => FinishKeepsValid(s, h);
  }

  lemma ServeKeepsValid(s: State, e: Event)
    requires Valid(s)
    ensures Valid(NextServe(s, e))
  {
    hide ActiveIn, HoldersValid, NoneAdmitting;
    NoneActive(s.handlers);
  }

  lemma SealKeepsValid(s: State, e: Event)
    requires Valid(s)
    ensures Valid(NextSeal(s, e))
  {
    hide ActiveIn, HoldersValid, NoneAdmitting;
    NoneActive(s.handlers);
    NoHolder(s.handlers);
  }

  lemma WaitKeepsValid(s: State, e: Event)
    requires Valid(s)
    ensures Valid(NextWait(s, e))
  {
    hide ActiveIn, HoldersValid, NoneAdmitting;
    NoneActive(s.handlers);
  }

  lemma CloserKeepsValid(s: State, e: Event)
    requires Valid(s)
    ensures Valid(NextCloser(s, e))
  {
    hide ActiveIn, HoldersValid, NoneAdmitting;
    NoneActive(s.handlers);
  }

  lemma OtherKeepsValid(s: State, e: Event)
    requires Valid(s)
    ensures Valid(NextOther(s, e))
  {
    hide Valid, NextSeal, NextWait, NextCloser, NextServe;
    SealKeepsValid(s, e);
    WaitKeepsValid(s, e);
    CloserKeepsValid(s, e);
    ServeKeepsValid(s, e);
  }

  lemma {:induction false} RunIsValid(events: seq<Event>)
    ensures Valid(Run(events))
  {
    if events != [] {
      hide Valid, NextHandler, NextOther, OfHandler;
      RunIsValid(events[..|events| - 1]);
      var s, e := Run(events[..|events| - 1]), events[|events| - 1];
      if OfHandler(e) {
        HandlerKeepsValid(s, e);
      } else {
        OtherKeepsValid(s, e);
      }
    } else {
      StartIsValid();
    }
  }

  lemma StartIsValid()
    ensures Valid(START)
  {
    assert Active(START) == {};
  }

  // ----- Safety -----

  /** On every path the repository is closed at most once, and once it is, or is about to be, no admitted handler
      and no worker is running. */
  lemma ClosedOnceAndLast(events: seq<Event>)
    ensures var s := Run(events);
            && s.closes <= 1
            && (s.closes == 1 || s.closer == Closing ==> Active(s) == {} && !WorkerRunning(s))
  {
    RunIsValid(events);
  }

  lemma ClosesStep(s: State, e: Event)
    ensures s.closes <= Next(s, e).closes
  {
    hide NextHandler, NextSeal, NextWait, NextServe;
    if OfHandler(e) {
      HandlerKeepsCloses(s, e);
    } else {
      OthersKeepCounts(s, e);
    }
  }

  lemma HandlerKeepsCloses(s: State, e: Event)
    requires OfHandler(e)
    ensures NextHandler(s, e).closes == s.closes
  {
  }

  lemma SealKeepsCounts(s: State, e: Event)
    ensures var t := NextSeal(s, e); t.closes == s.closes && t.counter == s.counter && Active(t) == Active(s)
  {
    hide ActiveIn;
  }

  lemma WaitKeepsCounts(s: State, e: Event)
    ensures var t := NextWait(s, e); t.closes == s.closes && t.counter == s.counter && Active(t) == Active(s)
  {
    hide ActiveIn;
  }

  lemma ServeKeepsCounts(s: State, e: Event)
    ensures var t := NextServe(s, e); t.closes == s.closes && t.counter == s.counter && Active(t) == Active(s)
  {
    hide ActiveIn;
  }

  lemma CloserKeepsCounts(s: State, e: Event)
    ensures var t := NextCloser(s, e); t.closes >= s.closes && t.counter == s.counter && Active(t) == Active(s)
  {
    hide ActiveIn;
  }

  /** Only handlers change the wait group's counter and who is active. */
  lemma OthersKeepCounts(s: State, e: Event)
    ensures var t := NextOther(s, e); t.closes >= s.closes && t.counter == s.counter && Active(t) == Active(s)
  {
    hide NextSeal, NextWait, NextCloser, NextServe, Active;
    SealKeepsCounts(s, e);
    WaitKeepsCounts(s, e);
    CloserKeepsCounts(s, e);
    ServeKeepsCounts(s, e);
  }

  lemma {:induction false} ClosesNeverDecrease(events: seq<Event>, n: nat)
    requires n <= |events|
    ensures Run(events[..n]).closes <= Run(events).closes
    decreases |events|
  {
    hide Next;
    if n < |events| {
      ClosesStep(Run(events[..|events| - 1]), events[|events| - 1]);
      ClosesNeverDecrease(events[..|events| - 1], n);
      assert events[..|events| - 1][..n] == events[..n];
    } else {
      assert events[..n] == events;
    }
  }

  /** Nothing that could use the repository starts after it was closed, however the run goes on. */
  lemma ClosedForGood(events: seq<Event>, n: nat)
    requires n <= |events| && Run(events[..n]).closes == 1
    ensures var s := Run(events); s.closes == 1 && Active(s) == {} && !WorkerRunning(s)
  {
    ClosesNeverDecrease(events, n);
    ClosedOnceAndLast(events);
  }

  /** A handler is admitted only before the seal, and its Add comes before any Wait. */
  lemma AdmittedBeforeSealAndWait(events: seq<Event>, e: Event)
    requires Next(Run(events), e).counter > Run(events).counter
    ensures e.Admit? && !Run(events).isSealed && !Run(events).waitCalled
  {
    RunIsValid(events);
    CounterRises(Run(events), e);
  }

  lemma CounterRises(s: State, e: Event)
    requires Next(s, e).counter > s.counter
    ensures e.Admit? && !s.isSealed
  {
    hide NextOther;
    OthersKeepCounts(s, e);
  }

  /** A Wait that returns, on either path, returns to a state without admitted handlers, and none follows. */
  lemma WaitedMeansGone(events: seq<Event>)
    requires var s := Run(events); s.main == HandlersGone || s.closer == WaitedForHandlers
    ensures Active(Run(events)) == {}
    ensures forall e :: Active(Next(Run(events), e)) == {}
  {
    RunIsValid(events);
    forall e
      ensures Active(Next(Run(events), e)) == {}
    {
      HandlersStayGone(Run(events), e);
    }
  }

  /** Once sealed no handler becomes active. */
  lemma NoneAdmitted(s: State, e: Event)
    requires s.isSealed && OfHandler(e)
    ensures forall h :: h in Active(NextHandler(s, e)) ==> h in Active(s)
  {
  }

  lemma HandlersStayGone(s: State, e: Event)
    requires s.isSealed && Active(s) == {}
    ensures Active(Next(s, e)) == {}
  {
    hide Active, NextHandler, NextOther;
    if OfHandler(e) {
      NoneAdmitted(s, e);
      assert forall h :: h in Active(Next(s, e)) ==> h in Active(s);
    } else {
      OthersKeepCounts(s, e);
    }
  }

  // ----- Both paths lead to a close -----

  /** A run goes on with a step of Serve, or of the worker and the closer. */
  lemma Continue(run: seq<Event>, s: State, e: Event) returns (longer: seq<Event>)
    requires Run(run) == s && !OfHandler(e)
    ensures Run(longer) == NextOther(s, e)
  {
    hide NextHandler, NextOther;
    RunSnoc(run, e);
    longer := run + [e];
  }

  /** Until the server has stopped; what its own shutdown said decides the path. */
  lemma StoppedRun(graceful: bool) returns (run: seq<Event>)
    ensures Run(run) == START.(main := ServerStopped(graceful), workerStarted := true, cancelled := true,
                               workerDone := true)
  {
    hide Run, NextHandler, Next;
    RunOfNone();
    var s := START;
    run := Continue([], s, StartServing);
    s := s.(main := Serving, workerStarted := true);
    run := Continue(run, s, CancelWorker);
    s := s.(main := WorkerCancelled, cancelled := true);
    run := Continue(run, s, WorkerStops);
    s := s.(workerDone := true);
    run := Continue(run, s, ShutdownReturns(graceful));
  }

  lemma SealedRun(graceful: bool) returns (run: seq<Event>)
    ensures Run(run) == START.(main := Sealed(graceful), isSealed := true, workerStarted := true, cancelled := true,
                               workerDone := true)
  {
    hide Run, NextHandler, Next;
    run := StoppedRun(graceful);
    var s := Run(run);
    run := Continue(run, s, SealLock);
    s := s.(main := Sealing(graceful), mutex := HeldByShutdown);
    run := Continue(run, s, SealStep);
    s := s.(main := SealSet(graceful), isSealed := true);
    run := Continue(run, s, SealUnlock);
  }

  /** The safety claims are not empty: a graceful shutdown can close the repository, */
  lemma GracefulRunCloses() returns (run: seq<Event>)
    ensures Run(run).closes == 1 && Run(run).main == Returned
  {
    hide Run, NextHandler, Next;
    run := SealedRun(true);
    var s := Run(run);
    run := Continue(run, s, SelectWorker(false));
    s := s.(main := WaitingForHandlers, waitCalled := true);
    run := Continue(run, s, WaitReturns);
    s := s.(main := HandlersGone);
    run := Continue(run, s, CloseOrGiveUp(false));
    s := s.(main := Returned, closer := Closing);
    run := Continue(run, s, Close);
    CloseCloses(s);
  }

  lemma CloseCloses(s: State)
    requires s.closer == Closing
    ensures NextCloser(s, Close) == s.(closer := Closed, closes := s.closes + 1)
  {
  }

  /** One handler's way through the mutex while it is free. */
  lemma HandlerPasses(run: seq<Event>, s: State, h: nat) returns (longer: seq<Event>)
    requires Run(run) == s && s.workerStarted && h !in s.handlers && s.mutex == Free
    ensures Run(longer) == if s.isSealed then s.(handlers := s.handlers[h := Rejected])
                           else s.(handlers := s.handlers[h := Running], counter := s.counter + 1)
  {
    hide Run, Next;
    longer := Step(run, s, Arrive(h));
    longer := Step(longer, Next(s, Arrive(h)), Lock(h));
    ArriveAndLock(s, h);
    var t := s.(handlers := s.handlers[h := Locked], mutex := HeldBy(h));
    longer := Step(longer, t, Admit(h));
    longer := Step(longer, Next(t, Admit(h)), Unlock(h));
    AdmitAndUnlock(t, h);
    assert s.handlers[h := Locked][h := Rejected] == s.handlers[h := Rejected];
    assert s.handlers[h := Locked][h := Running] == s.handlers[h := Running];
  }

  lemma ArriveAndLock(s: State, h: nat)
    requires s.workerStarted && h !in s.handlers && s.mutex == Free
    ensures Next(Next(s, Arrive(h)), Lock(h)) == s.(handlers := s.handlers[h := Locked], mutex := HeldBy(h))
  {
    hide NextOther;
    assert s.handlers[h := Arrived][h := Locked] == s.handlers[h := Locked];
  }

  lemma AdmitAndUnlock(t: State, h: nat)
    requires Is(t, h, Locked) && t.mutex == HeldBy(h)
    ensures Next(Next(t, Admit(h)), Unlock(h))
         == if t.isSealed then t.(handlers := t.handlers[h := Rejected], mutex := Free)
            else t.(handlers := t.handlers[h := Running], counter := t.counter + 1, mutex := Free)
  {
    hide NextOther;
    assert t.handlers[h := LockedRejected][h := Rejected] == t.handlers[h := Rejected];
    assert t.handlers[h := LockedAdmitted][h := Running] == t.handlers[h := Running];
  }

  /** From serving to waiting for handlers, whoever is running. */
  lemma WaitingRun(before: seq<Event>, start: State) returns (run: seq<Event>)
    requires Run(before) == start && start.main == Serving && start.workerStarted && start.mutex == Free
    ensures Run(run) == start.(main := WaitingForHandlers, waitCalled := true, isSealed := true, cancelled := true,
                               workerDone := true)
  {
    hide Run, NextHandler, Next;
    run := Continue(before, start, CancelWorker);
    var s := start.(main := WorkerCancelled, cancelled := true);
    run := Continue(run, s, WorkerStops);
    s := s.(workerDone := true);
    run := Continue(run, s, ShutdownReturns(true));
    s := s.(main := ServerStopped(true));
    run := SealFrom(run, s);
    s := s.(main := Sealed(true), isSealed := true);
    run := Continue(run, s, SelectWorker(false));
  }

  lemma SealFrom(before: seq<Event>, start: State) returns (run: seq<Event>)
    requires Run(before) == start && start.main == ServerStopped(true) && start.mutex == Free
    ensures Run(run) == start.(main := Sealed(true), isSealed := true)
  {
    hide Run, NextHandler, NextCloser, Next;
    run := Continue(before, start, SealLock);
    var s := start.(main := Sealing(true), mutex := HeldByShutdown);
    run := Continue(run, s, SealStep);
    s := s.(main := SealSet(true), isSealed := true);
    run := Continue(run, s, SealUnlock);
  }

  /** A handler that was admitted before the seal finishes while it is waited for, one that comes after the seal is
      rejected, and the repository is closed behind both. */
  lemma HandlersRunAndClose() returns (run: seq<Event>)
    ensures var s := Run(run);
            s.closes == 1 && s.main == Returned && s.handlers == map[1 := Finished, 2 := Rejected] && s.counter == 0
  {
    hide Run, NextHandler, NextOther, Next;
    RunOfNone();
    run := Continue([], START, StartServing);
    var s := START.(main := Serving, workerStarted := true);
    Serves();
    run := HandlerPasses(run, s, 1);
    s := s.(handlers := map[1 := Running], counter := 1);
    run := WaitingRun(run, s);
    s := s.(main := WaitingForHandlers, waitCalled := true, isSealed := true, cancelled := true, workerDone := true);
    run := HandlerPasses(run, s, 2);
    s := s.(handlers := map[1 := Running, 2 := Rejected]);
    run := Step(run, s, Finish(1));
    FinishCounts(s);
    s := s.(handlers := map[1 := Finished, 2 := Rejected], counter := 0);
    run := WaitedRun(run, s);
  }

  lemma Serves()
    ensures NextOther(START, StartServing) == START.(main := Serving, workerStarted := true)
  {
  }

  lemma FinishCounts(s: State)
    requires s.handlers == map[1 := Running, 2 := Rejected] && s.counter == 1
    ensures Next(s, Finish(1)) == s.(handlers := map[1 := Finished, 2 := Rejected], counter := 0)
  {
    assert s.handlers[1 := Finished] == map[1 := Finished, 2 := Rejected];
  }

  lemma WaitedRun(before: seq<Event>, start: State) returns (run: seq<Event>)
    requires Run(before) == start && start.main == WaitingForHandlers && start.counter == 0
    ensures Run(run) == start.(main := Returned, closer := Closed, closes := start.closes + 1)
  {
    hide Run, NextHandler, Next;
    run := Continue(before, start, WaitReturns);
    var s := start.(main := HandlersGone);
    run := Continue(run, s, CloseOrGiveUp(false));
    s := s.(main := Returned, closer := Closing);
    run := Continue(run, s, Close);
  }

  lemma Step(run: seq<Event>, s: State, e: Event) returns (longer: seq<Event>)
    requires Run(run) == s
    ensures Run(longer) == Next(s, e)
  {
    hide Next;
    RunSnoc(run, e);
    longer := run + [e];
  }

  /** The worker stops only after it was told to, and it was started before. */
  lemma {:induction false} WorkerStopsWhenCancelled(events: seq<Event>)
    ensures var s := Run(events); s.workerDone ==> s.cancelled && s.workerStarted
  {
    hide Next, Run;
    RunOfNone();
    if events != [] {
      RunSnoc(events[..|events| - 1], events[|events| - 1]);
      assert events[..|events| - 1] + [events[|events| - 1]] == events;
      WorkerStopsWhenCancelled(events[..|events| - 1]);
      WorkerStep(Run(events[..|events| - 1]), events[|events| - 1]);
    }
  }

  predicate WorkerValid(s: State) {
    s.workerDone ==> s.cancelled && s.workerStarted
  }

  lemma WorkerStep(s: State, e: Event)
    requires WorkerValid(s)
    ensures WorkerValid(Next(s, e))
  {
    hide WorkerValid, NextHandler, NextSeal, NextWait, NextServe, NextCloser;
    if OfHandler(e) {
      HandlerKeepsWorker(s, e);
    } else {
      OthersKeepWorker(s, e);
    }
  }

  lemma HandlerKeepsWorker(s: State, e: Event)
    requires OfHandler(e) && WorkerValid(s)
    ensures WorkerValid(NextHandler(s, e))
  {
  }

  lemma OthersKeepWorker(s: State, e: Event)
    requires WorkerValid(s)
    ensures WorkerValid(NextSeal(s, e)) && WorkerValid(NextServe(s, e))
    ensures WorkerValid(NextWait(s, e)) && WorkerValid(NextCloser(s, e))
  {
  }

  /** The closing goroutine alone, once nothing is running. */
  lemma CloserRun(before: seq<Event>, start: State) returns (run: seq<Event>)
    requires Run(before) == start && start.closer == Waiting && start.counter == 0 && start.workerDone
    ensures Run(run) == start.(waitCalled := true, closer := Closed, closes := start.closes + 1)
  {
    hide Run, NextHandler, Next;
    run := Continue(before, start, CloserCallsWait);
    var s := start.(waitCalled := true);
    run := Continue(run, s, CloserWaits);
    s := s.(closer := WaitedForHandlers);
    run := Continue(run, s, CloserReceives);
    s := s.(closer := Closing);
    run := Continue(run, s, Close);
  }

  /** and so can a forced one. */
  lemma ForcedRunCloses() returns (run: seq<Event>)
    ensures Run(run).closes == 1 && Run(run).main == Returned
  {
    hide Run, NextHandler, Next;
    run := SealedRun(false);
    var s := Run(run);
    run := Continue(run, s, SelectWorker(true));
    run := CloserRun(run, s.(main := Returned, closer := Waiting));
  }

  lemma RunOfNone()
    ensures Run([]) == START
  {
  }

  lemma RunSnoc(events: seq<Event>, e: Event)
    ensures Run(events + [e]) == Next(Run(events), e)
  {
    assert (events + [e])[..|events|] == events;
  }
}
