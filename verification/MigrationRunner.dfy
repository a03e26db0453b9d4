/** One migration runner as the loops of applyCockroach, among others that use the same database. */
module MigrationRunner {
  import opened Common
  import opened Migrations

  /** What an attempt meets: its outcome, whether it took effect, and whether the pause after it is cancelled. */
  datatype Weather = Weather(outcome: Attempt, tookEffect: bool, cancelled: bool)

  /** Where an operation leaves its runner when it succeeds. */
  ghost function AfterSuccess(files: seq<File>, r: Runner, applied: bool): Runner {
    match r
    case CreatingTable(_) => CheckNext(files, 0)
    case Checking(file, _) =>
      if applied then CheckNext(files, file + 1) else if file < |files| then ExecuteNext(files, file, 0) else Stopped
    case Executing(file, statement, _) => if file < |files| then ExecuteNext(files, file, statement + 1) else Stopped
    case Recording(file, _) => CheckNext(files, file + 1)
    case _ => r
  }

  ghost predicate IsWorking(r: Runner, files: seq<File>) {
    !r.Applied? && !r.Stopped? && IsAt(r, files)
  }

  lemma RunSnoc(files: seq<File>, events: seq<Event>, e: Event)
    ensures Run(files, events + [e]) == Next(files, Run(files, events), e)
  {
    assert (events + [e])[..|events|] == events;
  }

  /** One attempt moves its runner on, lets it try again, or stops it. */
  lemma TryMoves(files: seq<File>, s: State, id: nat, outcome: Attempt, tookEffect: bool)
    requires id in s.runners && IsWorking(s.runners[id], files)
    ensures var r, t := s.runners[id], NextTry(files, s, id, outcome, tookEffect);
            && id in t.runners
            && (outcome == Succeeds ==>
                  t.runners[id] == AfterSuccess(files, r, r.Checking? && files[r.file].version in s.recorded))
            && (outcome != Succeeds ==> t.runners[id] == Retried(r, outcome))
  {
    hide StatementsOf;
  }

  /** Only an insert that takes effect changes the version table. */
  lemma RecordsOnly(files: seq<File>, s: State, id: nat, weather: Weather)
    requires id in s.runners && IsWorking(s.runners[id], files)
    ensures var r := s.runners[id];
            NextTry(files, s, id, weather.outcome, weather.tookEffect).recorded
            == if r.Recording? && (weather.outcome == Succeeds || weather.tookEffect) then
                 s.recorded + {files[r.file].version}
               else s.recorded
  {
    hide StatementsOf;
  }

  datatype Operation = CreateTable | Check | Execute(sql: string) | Record

  /** The operation a runner performs where it stands. */
  ghost predicate Performs(operation: Operation, version: string, r: Runner, files: seq<File>)
    requires IsWorking(r, files)
  {
    match r
    case CreatingTable(_) => operation == CreateTable
    case Checking(file, _) => operation == Check && version == files[file].version
    case Executing(file, statement, _) => operation == Execute(StatementsOf(files[file]).value[statement])
    case Recording(file, _) => operation == Record && version == files[file].version
    case _ => false
  }

  lemma TriesDoNotMatter(files: seq<File>, r: Runner, tries: nat)
    requires IsWorking(r, files)
    ensures var q := r.(tries := tries);
            && !r.Applied? && !r.Stopped? && (r.tries == tries ==> q == r)
            && IsWorking(q, files) && q.Checking? == r.Checking?
            && (forall operation, version ::
                  Performs(operation, version, q, files) == Performs(operation, version, r, files))
            && (forall applied :: AfterSuccess(files, q, applied) == AfterSuccess(files, r, applied))
  {
    hide StatementsOf;
  }

  function RunnerOf(e: Event): nat {
    e.runner
  }

  /** A step of one runner does not move another. */
  lemma StepLeavesOthers(files: seq<File>, s: State, e: Event, id: nat)
    requires RunnerOf(e) != id
    ensures var t := Next(files, s, e);
            (id in t.runners <==> id in s.runners) && (id in s.runners ==> t.runners[id] == s.runners[id])
  {
    hide StatementsOf;
  }

  /** Steps of others, any number of them, leave a runner where it is. */
  lemma {:induction false} OthersLeaveRunner(files: seq<File>, events: seq<Event>, others: seq<Event>, id: nat)
    requires forall e :: e in others ==> RunnerOf(e) != id
    ensures var s, t := Run(files, events), Run(files, events + others);
            (id in t.runners <==> id in s.runners) && (id in s.runners ==> t.runners[id] == s.runners[id])
  {
    if others == [] {
      assert events + others == events;
    } else {
      hide Next;
      var last := |others| - 1;
      OthersLeaveRunner(files, events, others[..last], id);
      RunSnoc(files, events + others[..last], others[last]);
      assert (events + others[..last]) + [others[last]] == events + others;
      StepLeavesOthers(files, Run(files, events + others[..last]), others[last], id);
    }
  }

  /** The network from its k-th use on, as one retried operation sees it. */
  function OutcomesFrom(network: nat -> Weather, k: nat): nat -> Attempt {
    (i: nat) => network(k + i).outcome
  }

  function PausesFrom(network: nat -> Weather, k: nat): nat -> bool {
    (i: nat) => network(k + i).cancelled
  }

  /** Between two uses of the network every attempt succeeded. */
  ghost predicate AllSucceed(network: nat -> Weather, from: nat, to: nat) {
    forall i :: from <= i < to ==> network(i).outcome == Succeeds
  }

  /** From its k-th use to the one before `to`, the network is used for one retried operation. */
  ghost predicate RetriesFrom(network: nat -> Weather, k: nat, to: nat, r: RetryResult) {
    k <= to && IsRetry(OutcomesFrom(network, k), PausesFrom(network, k), to - k, r)
  }

  /** So far every attempt failed to serialize, and no pause was cancelled. */
  ghost predicate StillRetrying(network: nat -> Weather, k: nat, attempts: nat) {
    forall i :: 0 <= i < attempts ==>
      OutcomesFrom(network, k)(i) == FailsToSerialize && !PausesFrom(network, k)(i)
  }

  lemma NotYetRetried(network: nat -> Weather, k: nat)
    ensures StillRetrying(network, k, 0)
  {
  }

  /** What the next attempt makes of it. */
  lemma RetryEnds(network: nat -> Weather, k: nat, attempt: nat)
    requires StillRetrying(network, k, attempt) && attempt < COCKROACH_MAX_RETRIES
    ensures var weather, to := network(k + attempt), k + attempt + 1;
            match weather.outcome
            case Succeeds => RetriesFrom(network, k, to, Success)
            case FailsOtherwise => RetriesFrom(network, k, to, Failure)
            case FailsToSerialize =>
              if attempt == COCKROACH_MAX_RETRIES - 1 then RetriesFrom(network, k, to, Exhausted)
              else if weather.cancelled then RetriesFrom(network, k, to, Cancelled)
              else StillRetrying(network, k, attempt + 1)
  {
    assert OutcomesFrom(network, k)(attempt) == network(k + attempt).outcome;
    assert PausesFrom(network, k)(attempt) == network(k + attempt).cancelled;
  }

  lemma RetriedIs(files: seq<File>, r: Runner, attempt: nat, outcome: Attempt)
    requires IsWorking(r, files)
    ensures var next := Retried(r.(tries := attempt), outcome);
            next == if outcome == FailsToSerialize && attempt + 1 < COCKROACH_MAX_RETRIES then r.(tries := attempt + 1)
                    else Stopped
  {
  }

  /** The last operation failed for good, after all the attempts it may take. */
  ghost predicate GaveUp(network: nat -> Weather, from: nat, to: nat) {
    exists k, r :: from <= k < to && r != Success && RetriesFrom(network, k, to, r)
  }

  lemma RetryMeans(network: nat -> Weather, from: nat, k: nat, to: nat, r: RetryResult)
    requires from <= k && RetriesFrom(network, k, to, r)
    ensures k < to
    ensures r == Success <==> network(to - 1).outcome == Succeeds
    ensures r != Success ==> GaveUp(network, from, to) && !AllSucceed(network, from, to)
  {
    assert OutcomesFrom(network, k)(to - k - 1) == network(to - 1).outcome;
  }

  lemma GaveUpFails(network: nat -> Weather, from: nat, to: nat)
    requires GaveUp(network, from, to)
    ensures to > from && network(to - 1).outcome != Succeeds
  {
    var k, r :| from <= k < to && r != Success && RetriesFrom(network, k, to, r);
    RetryMeans(network, from, k, to, r);
  }

  lemma GaveUpEarlier(network: nat -> Weather, from: nat, mid: nat, to: nat)
    requires from <= mid && GaveUp(network, mid, to)
    ensures GaveUp(network, from, to)
  {
  }

  /** Some file from this one on cannot be split into statements. */
  ghost predicate SomeUnsplittable(files: seq<File>, from: nat) {
    exists f :: from <= f < |files| && StatementsOf(files[f]).None?
  }

  class Database {
    const files: seq<File>
    /** The version table. */
    var recorded: set<string>
    /** How often this runner has used the network. */
    var calls: nat
    /** What all runners have done, in order. */
    ghost var events: seq<Event>

    ghost predicate Valid()
      reads this
    {
      recorded == Run(files, events).recorded
    }

    ghost predicate At(id: nat, r: Runner)
      reads this
    {
      id in Run(files, events).runners && Run(files, events).runners[id] == r
    }

    constructor (files: seq<File>)
      ensures Valid() && this.files == files && recorded == {} && events == [] && calls == 0
    {
      this.files, recorded, calls, events := files, {}, 0, [];
    }

    /** Whatever other runners do between two steps of this one: any steps that are not its own. */
    method OtherRunners(ghost id: nat) returns (ghost others: seq<Event>)
      requires Valid()
      modifies this
      ensures Valid() && calls == old(calls)
      ensures events == old(events) + others && forall e :: e in others ==> RunnerOf(e) != id
    {
      others := [];
    }

    /** This runner's own step: one attempt at the operation it is at. It moves no other runner. */
    method Attempt(id: nat, ghost r: Runner, operation: Operation, version: string, weather: Weather)
      returns (applied: bool)
      requires Valid() && At(id, r) && IsWorking(r, files) && Performs(operation, version, r, files)
      modifies this
      ensures Valid() && calls == old(calls) + 1
      ensures events == old(events) + [Try(id, weather.outcome, weather.tookEffect)]
      ensures applied == (version in old(recorded))
      ensures weather.outcome == Succeeds ==> At(id, AfterSuccess(files, r, r.Checking? && applied))
      ensures weather.outcome != Succeeds ==> At(id, Retried(r, weather.outcome))
      ensures forall other, q :: other != id && old(At(other, q)) ==> At(other, q)
    {
      hide Run, AfterSuccess;
      ghost var s, e := Run(files, events), Try(id, weather.outcome, weather.tookEffect);
      TryMoves(files, s, id, weather.outcome, weather.tookEffect);
      RunSnoc(files, events, e);
      RecordsOnly(files, s, id, weather);
      forall other | other != id
        ensures other in s.runners ==>
          other in Next(files, s, e).runners && Next(files, s, e).runners[other] == s.runners[other]
      {
        StepLeavesOthers(files, s, e, other);
      }
      applied := version in recorded;
      calls := calls + 1;
      events := events + [e];
      if operation == Record && (weather.outcome == Succeeds || weather.tookEffect) {
        recorded := recorded + {version};
      }
    }

    /** The runner gives up, which moves no other runner. */
    method GiveUp(id: nat, ghost r: Runner)
      requires Valid() && At(id, r)
      modifies this
      ensures Valid() && calls == old(calls) && events == old(events) + [Stop(id)] && At(id, Stopped)
      ensures forall other, q :: other != id && old(At(other, q)) ==> At(other, q)
    {
      hide NextTry;
      RunSnoc(files, events, Stop(id));
      events := events + [Stop(id)];
    }

    /** Others act, then this runner makes one attempt. */
    method Turn(id: nat, ghost r: Runner, operation: Operation, version: string, weather: Weather)
      returns (applied: bool)
      requires Valid() && At(id, r) && IsWorking(r, files) && Performs(operation, version, r, files)
      modifies this
      ensures Valid() && old(events) <= events && calls == old(calls) + 1
      ensures weather.outcome == Succeeds ==> At(id, AfterSuccess(files, r, r.Checking? && applied))
      ensures weather.outcome != Succeeds ==> At(id, Retried(r, weather.outcome))
    {
      hide Run, AfterSuccess, IsWorking, Performs;
      ghost var before := events;
      ghost var others := OtherRunners(id);
      OthersLeaveRunner(files, before, others, id);
      applied := Attempt(id, r, operation, version, weather);
    }

    /** retryCockroach around one operation of the runner. */
    method Perform(id: nat, ghost start: Runner, operation: Operation, version: string, network: nat -> Weather)
      returns (r: RetryResult, applied: bool)
      requires Valid() && At(id, start) && IsWorking(start, files) && start.tries == 0
      requires Performs(operation, version, start, files)
      modifies this
      ensures Valid() && old(events) <= events && old(calls) <= calls
      ensures RetriesFrom(network, old(calls), calls, r)
      ensures old(calls) + 1 <= calls <= old(calls) + 5
      ensures r == Exhausted <==> calls == old(calls) + 5 && network(calls - 1).outcome == FailsToSerialize
      ensures r == Success ==> At(id, AfterSuccess(files, start, start.Checking? && applied))
      ensures r != Success ==> At(id, Stopped)
    {
      hide Run, At, AfterSuccess, StatementsOf, Performs, Retried, IsWorking, RetriesFrom, StillRetrying;
      var attempt := 0;
      ghost var first := calls;
      NotYetRetried(network, first);
      TriesDoNotMatter(files, start, 0);
      while true
        invariant attempt < COCKROACH_MAX_RETRIES && Valid() && old(events) <= events && calls == first + attempt
        invariant At(id, start.(tries := attempt)) && StillRetrying(network, first, attempt)
        decreases COCKROACH_MAX_RETRIES - attempt
      {
        ghost var at := start.(tries := attempt);
        var weather := network(calls);
        TriesDoNotMatter(files, start, attempt);
        RetriedIs(files, start, attempt, weather.outcome);
        RetryEnds(network, first, attempt);
        applied := Turn(id, at, operation, version, weather);
        if weather.outcome == Succeeds {
          return Success, applied;
        }
        if weather.outcome != FailsToSerialize {
          return Failure, applied;
        }
        if attempt == COCKROACH_MAX_RETRIES - 1 {
          return Exhausted, applied;
        }
        if weather.cancelled {
          GiveUp(id, Retried(at, weather.outcome));
          return Cancelled, applied;
        }
        attempt := attempt + 1;
      }
    }

    /** The statements of one file, one after the other; it stops only where one of them fails for good. */
    method ExecuteAll(id: nat, file: nat, statements: seq<string>, network: nat -> Weather) returns (ok: bool)
      requires Valid() && file < |files| && StatementsOf(files[file]) == Some(statements)
      requires At(id, ExecuteNext(files, file, 0))
      modifies this
      ensures Valid() && old(events) <= events && old(calls) <= calls
      ensures ok ==> At(id, Recording(file, 0)) && calls >= old(calls) + |statements|
      ensures !ok ==> At(id, Stopped) && GaveUp(network, old(calls), calls)
    {
      hide Run, StatementsOf, At, GaveUp, RetriesFrom;
      var index := 0;
      while index < |statements|
        invariant index <= |statements| && Valid() && old(events) <= events && old(calls) + index <= calls
        invariant At(id, ExecuteNext(files, file, index))
      {
        var operation := Execute(statements[index]);
        ghost var before := calls;
        var done, applied := Perform(id, Executing(file, index, 0), operation, files[file].version, network);
        RetryMeans(network, old(calls), before, calls, done);
        if done != Success {
          return false;
        }
        index := index + 1;
      }
      return true;
    }

    /** The body of the loop over the files: it stops only where an operation fails for good, or a file that is not
        recorded cannot be split. */
    method ApplyFile(id: nat, file: nat, network: nat -> Weather) returns (ok: bool)
      requires Valid() && file < |files| && At(id, Checking(file, 0))
      modifies this
      ensures Valid() && old(events) <= events && old(calls) < calls
      ensures ok ==> At(id, CheckNext(files, file + 1))
      ensures !ok ==> At(id, Stopped) && (GaveUp(network, old(calls), calls) || StatementsOf(files[file]).None?)
    {
      hide Run, StatementsOf, At, GaveUp, RetriesFrom;
      var version := files[file].version;
      ghost var start := calls;
      var done, applied := Perform(id, Checking(file, 0), Check, version, network);
      RetryMeans(network, start, start, calls, done);
      if done != Success {
        return false;
      }
      if applied {
        return true;
      }
      var statements := StatementsOf(files[file]);
      if statements.None? {
        return false;
      }
      ghost var checked := calls;
      ok := ExecuteAll(id, file, statements.value, network);
      if !ok {
        GaveUpEarlier(network, start, checked, calls);
        return;
      }
      ghost var executed := calls;
      done, applied := Perform(id, Recording(file, 0), Record, version, network);
      RetryMeans(network, start, executed, calls, done);
      ok := done == Success;
    }

    /**
     * applyCockroach for a runner that has started: whatever the network and the other runners do, each step it takes
     * is a step of the runs above. It succeeds only once it has passed every file, and fails only where one operation
     * fails for good, after all the attempts it may take, or a file cannot be split; so it succeeds when every attempt
     * does and every file can be split.
     */
    method ApplyCockroach(id: nat, network: nat -> Weather) returns (ok: bool)
      requires Valid() && At(id, CreatingTable(0))
      modifies this
      ensures Valid() && old(events) <= events && old(calls) < calls
      ensures ok ==> At(id, Applied)
      ensures !ok ==> At(id, Stopped) && (GaveUp(network, old(calls), calls) || SomeUnsplittable(files, 0))
      ensures AllSucceed(network, old(calls), calls) && !SomeUnsplittable(files, 0) ==> ok
      ensures ok && DistinctVersions(files) ==> Names(files, |files|) <= recorded
    {
      hide Run, StatementsOf, At, GaveUp, RetriesFrom, SomeUnsplittable;
      ghost var start := calls;
      var done, applied := Perform(id, CreatingTable(0), CreateTable, "", network);
      RetryMeans(network, start, start, calls, done);
      ok := done == Success;
      var file := 0;
      while ok && file < |files|
        invariant file <= |files| && Valid() && old(events) <= events && start < calls
        invariant ok ==> At(id, CheckNext(files, file))
        invariant !ok ==> At(id, Stopped) && (GaveUp(network, start, calls) || SomeUnsplittable(files, 0))
      {
        ghost var before := calls;
        ok := ApplyFile(id, file, network);
        FailedFile(start, before, file, network, ok);
        file := file + 1;
      }
      if ok {
        AllRecordedAtEnd(id);
      } else {
        GaveUpIsNoSuccess(network, start, calls);
      }
    }

    lemma FailedFile(start: nat, before: nat, file: nat, network: nat -> Weather, ok: bool)
      requires start <= before && file < |files|
      requires !ok ==> GaveUp(network, before, calls) || StatementsOf(files[file]).None?
      ensures !ok ==> GaveUp(network, start, calls) || SomeUnsplittable(files, 0)
    {
      hide StatementsOf;
      if GaveUp(network, before, calls) {
        GaveUpEarlier(network, start, before, calls);
      }
    }

    lemma AllRecordedAtEnd(id: nat)
      requires Valid() && At(id, Applied)
      ensures DistinctVersions(files) ==> Names(files, |files|) <= recorded
    {
      hide Run;
      if DistinctVersions(files) {
        AppliedMeansAllRecorded(files, events, id);
      }
    }
  }

  lemma GaveUpIsNoSuccess(network: nat -> Weather, from: nat, to: nat)
    ensures GaveUp(network, from, to) ==> !AllSucceed(network, from, to)
  {
    if GaveUp(network, from, to) {
      GaveUpFails(network, from, to);
    }
  }
}
