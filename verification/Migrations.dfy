/** Migrations without a lock: many runners, retries, crashes and restarts against one version table. */
module Migrations {
  import opened Common
  import SqlSplitter

  const COCKROACH_MAX_RETRIES: nat := 5

  /** One attempt at a database operation. */
  datatype Attempt = Succeeds | FailsToSerialize | FailsOtherwise

  // ----- Retrying -----

  datatype RetryResult = Success | Failure | Cancelled | Exhausted

  /** What retrying an operation comes to: all attempts but the last failed to serialize and were not cancelled in the
      pause after them, there are at most five, and the last one decides. */
  ghost predicate IsRetry(operation: nat -> Attempt, cancelled: nat -> bool, attempts: nat, r: RetryResult) {
    && 1 <= attempts <= COCKROACH_MAX_RETRIES
    && (forall i :: 0 <= i < attempts - 1 ==> operation(i) == FailsToSerialize && !cancelled(i))
    && (r == match operation(attempts - 1)
             case Succeeds => Success
             case FailsOtherwise => Failure
             case FailsToSerialize => if attempts == COCKROACH_MAX_RETRIES then Exhausted else Cancelled)
    && (r == Cancelled ==> cancelled(attempts - 1))
  }

  /** What the attempts bring decides how many there are and what they come to. */
  lemma RetryIsDetermined(operation: nat -> Attempt, cancelled: nat -> bool, n1: nat, r1: RetryResult, n2: nat,
                          r2: RetryResult)
    requires IsRetry(operation, cancelled, n1, r1) && IsRetry(operation, cancelled, n2, r2)
    ensures n1 == n2 && r1 == r2
  {
  }

  // ----- Runners -----

  /** An embedded migration file. */
  datatype File = File(version: string, sql: string)

  /** Where applyCockroach stands, and how often it has tried the operation it is at. */
  datatype Runner =
    | CreatingTable(tries: nat)
    | Checking(file: nat, tries: nat)
    | Executing(file: nat, statement: nat, tries: nat)
    | Recording(file: nat, tries: nat)
    | Applied
    | Stopped

  /** An acknowledged statement. */
  datatype Executed = Executed(runner: nat, file: nat, statement: nat)

  datatype State = State(recorded: set<string>, runners: map<nat, Runner>, log: seq<Executed>)

  const START := State({}, map[], [])

  /** A restarted process is a new runner; an operation may take effect although its runner sees it fail. */
  datatype Event =
    | Start(runner: nat)
    | Try(runner: nat, outcome: Attempt, tookEffect: bool)
    | Stop(runner: nat)

  function StatementsOf(f: File): Option<seq<string>> {
    SqlSplitter.Split(f.sql)
  }

  /** Where a runner goes after a failed attempt. */
  function Retried(r: Runner, outcome: Attempt): Runner
    requires !r.Applied? && !r.Stopped?
  {
    if outcome == FailsToSerialize && r.tries + 1 < COCKROACH_MAX_RETRIES then r.(tries := r.tries + 1) else Stopped
  }

  function CheckNext(files: seq<File>, file: nat): Runner {
    if file < |files| then Checking(file, 0) else Applied
  }

  /** The statement to execute next, or the version to record. */
  function ExecuteNext(files: seq<File>, file: nat, statement: nat): Runner
    requires file < |files|
  {
    match StatementsOf(files[file])
    case None => Stopped
    case Some(statements) =>
      if statement < |statements| then Executing(file, statement, 0) else Recording(file, 0)
  }

  predicate IsAt(r: Runner, files: seq<File>) {
    match r
    case Checking(file, _) => file < |files|
    case Recording(file, _) => file < |files|
    case Executing(file, statement, _) =>
      file < |files| && StatementsOf(files[file]).Some? && statement < |StatementsOf(files[file]).value|
    case _ => true
  }

  function SetRunner(s: State, id: nat, r: Runner): State {
    s.(runners := s.runners[id := r])
  }

  /** One attempt of one runner. */
  function NextTry(files: seq<File>, s: State, id: nat, outcome: Attempt, tookEffect: bool): State {
    if id !in s.runners || s.runners[id].Applied? || s.runners[id].Stopped? || !IsAt(s.runners[id], files) then s
    else
      var r := s.runners[id];
      match r
      case CreatingTable(_) =>
        SetRunner(s, id, if outcome == Succeeds then CheckNext(files, 0) else Retried(r, outcome))
      case Checking(file, _) =>
        SetRunner(s, id,
          if outcome != Succeeds then Retried(r, outcome)
          else if files[file].version in s.recorded then CheckNext(files, file + 1)
          else ExecuteNext(files, file, 0))
      case Executing(file, statement, _) =>
        if outcome == Succeeds then
          SetRunner(s, id, ExecuteNext(files, file, statement + 1)).(log := s.log + [Executed(id, file, statement)])
        else SetRunner(s, id, Retried(r, outcome))
      case Recording(file, _) =>
        var after := if outcome == Succeeds || tookEffect then s.recorded + {files[file].version} else s.recorded;
        SetRunner(s, id, if outcome == Succeeds then CheckNext(files, file + 1) else Retried(r, outcome))
          .(recorded := after)
  }

  function Next(files: seq<File>, s: State, e: Event): State {
    match e
    case Start(id) => if id in s.runners then s else SetRunner(s, id, CreatingTable(0))
    case Stop(id) => if id in s.runners then SetRunner(s, id, Stopped) else s
    case Try(id, outcome, tookEffect) => NextTry(files, s, id, outcome, tookEffect)
  }

  function Run(files: seq<File>, events: seq<Event>): State {
    if events == [] then START else Next(files, Run(files, events[..|events| - 1]), events[|events| - 1])
  }

  // ----- What every run keeps -----

  /** embed.FS lists its files sorted by name, so no version occurs twice. */
  ghost predicate DistinctVersions(files: seq<File>) {
    forall i, j :: 0 <= i < j < |files| ==> files[i].version != files[j].version
  }

  /** The versions of the first n files. */
  ghost function Names(files: seq<File>, n: nat): set<string>
    requires n <= |files|
  {
    if n == 0 then {} else Names(files, n - 1) + {files[n - 1].version}
  }

  ghost predicate IsPrefix(files: seq<File>, recorded: set<string>) {
    exists n :: 0 <= n <= |files| && recorded == Names(files, n)
  }

  ghost predicate AllRecorded(files: seq<File>, recorded: set<string>, n: nat) {
    forall i :: 0 <= i < n && i < |files| ==> files[i].version in recorded
  }

  /** The statements of a file that a runner has executed, in order. */
  function Done(log: seq<Executed>, id: nat, file: nat): seq<nat> {
    if log == [] then []
    else
      var last := log[|log| - 1];
      Done(log[..|log| - 1], id, file)
      + if last.runner == id && last.file == file then [last.statement] else []
  }

  function Upto(n: nat): seq<nat> {
    seq(n, i requires 0 <= i < n => i)
  }

  /** All statements of the file were acknowledged to one runner, each once and in order. */
  ghost predicate FullyExecuted(files: seq<File>, log: seq<Executed>, file: nat) {
    && file < |files| && StatementsOf(files[file]).Some?
    && exists id :: Done(log, id, file) == Upto(|StatementsOf(files[file]).value|)
  }

  /** The files a runner may still execute statements of have none executed, the current one the first few. */
  ghost predicate RunnerValid(files: seq<File>, s: State, id: nat, r: Runner) {
    && IsAt(r, files)
    && match r
       case CreatingTable(_) => forall f :: Done(s.log, id, f) == []
       case Checking(file, _) =>
         AllRecorded(files, s.recorded, file) && forall f :: f >= file ==> Done(s.log, id, f) == []
       case Executing(file, statement, _) =>
         && AllRecorded(files, s.recorded, file) && Done(s.log, id, file) == Upto(statement)
         && forall f :: f > file ==> Done(s.log, id, f) == []
       case Recording(file, _) =>
         && AllRecorded(files, s.recorded, file)
         && StatementsOf(files[file]).Some?
         && Done(s.log, id, file) == Upto(|StatementsOf(files[file]).value|)
         && forall f :: f > file ==> Done(s.log, id, f) == []
       case Applied => AllRecorded(files, s.recorded, |files|)
       case Stopped => true
  }

  ghost predicate Valid(files: seq<File>, s: State) {
    && IsPrefix(files, s.recorded)
    && (forall id :: id in s.runners ==> RunnerValid(files, s, id, s.runners[id]))
    && (forall id :: id !in s.runners ==> forall f :: Done(s.log, id, f) == [])
    && (forall i :: 0 <= i < |files| && files[i].version in s.recorded ==> FullyExecuted(files, s.log, i))
  }

  lemma {:induction false} NamesAre(files: seq<File>, n: nat)
    requires n <= |files|
    ensures forall i :: 0 <= i < n ==> files[i].version in Names(files, n)
    ensures forall v :: v in Names(files, n) ==> exists i :: 0 <= i < n && files[i].version == v
  {
    if n > 0 {
      NamesAre(files, n - 1);
    }
  }

  lemma NextIsNew(files: seq<File>, n: nat)
    requires DistinctVersions(files) && n <= |files|
    ensures n < |files| ==> files[n].version !in Names(files, n)
  {
    NamesAre(files, n);
  }

  /** Recording the next version keeps the prefix. */
  lemma RecordKeepsPrefix(files: seq<File>, recorded: set<string>, file: nat)
    requires DistinctVersions(files) && IsPrefix(files, recorded) && file < |files|
    requires AllRecorded(files, recorded, file)
    ensures IsPrefix(files, recorded + {files[file].version})
  {
    var n :| 0 <= n <= |files| && recorded == Names(files, n);
    NamesAre(files, n);
    if file < n {
      assert recorded + {files[file].version} == recorded;
    } else {
      NextIsNew(files, n);
      assert recorded + {files[file].version} == Names(files, n + 1);
    }
  }

  lemma DoneAfter(log: seq<Executed>, e: Executed, id: nat, file: nat)
    ensures Done(log + [e], id, file)
         == Done(log, id, file) + if e.runner == id && e.file == file then [e.statement] else []
  {
    assert (log + [e])[..|log|] == log;
  }

  /** A runner that changes its place, or a version table that grows, leaves the others valid. */
  lemma MoveKeepsValid(files: seq<File>, s: State, id: nat, r: Runner, recorded: set<string>)
    requires Valid(files, s) && s.recorded <= recorded && IsPrefix(files, recorded)
    requires RunnerValid(files, s.(recorded := recorded), id, r)
    requires forall i :: 0 <= i < |files| && files[i].version in recorded ==> FullyExecuted(files, s.log, i)
    ensures Valid(files, SetRunner(s, id, r).(recorded := recorded))
  {
    hide IsAt, Done, IsPrefix, FullyExecuted, Upto;
    var t := SetRunner(s, id, r).(recorded := recorded);
    forall x | x in t.runners
      ensures RunnerValid(files, t, x, t.runners[x])
    {
      if x != id {
        assert RunnerValid(files, s, x, s.runners[x]);
      }
    }
  }

  lemma UptoNext(n: nat)
    ensures Upto(n) + [n] == Upto(n + 1)
  {
  }

  /** Another acknowledged statement of the runner that is at it. */
  lemma ExecuteKeepsValid(files: seq<File>, s: State, id: nat)
    requires Valid(files, s) && id in s.runners && s.runners[id].Executing?
    ensures var r := s.runners[id];
            Valid(files, SetRunner(s, id, ExecuteNext(files, r.file, r.statement + 1))
                           .(log := s.log + [Executed(id, r.file, r.statement)]))
  {
    hide Done, Upto, IsPrefix, StatementsOf;
    var r := s.runners[id];
    assert RunnerValid(files, s, id, r);
    var e := Executed(id, r.file, r.statement);
    var t := SetRunner(s, id, ExecuteNext(files, r.file, r.statement + 1)).(log := s.log + [e]);
    forall x, f
      ensures Done(t.log, x, f) == Done(s.log, x, f) + if x == id && f == r.file then [r.statement] else []
    {
      DoneAfter(s.log, e, x, f);
    }
    forall x, f | x != id || f != r.file
      ensures Done(t.log, x, f) == Done(s.log, x, f)
    {
      assert Done(s.log, x, f) + [] == Done(s.log, x, f);
    }
    UptoNext(r.statement);
    forall x | x in t.runners
      ensures RunnerValid(files, t, x, t.runners[x])
    {
      if x != id {
        assert RunnerValid(files, s, x, s.runners[x]);
      }
    }
    forall i | 0 <= i < |files| && files[i].version in t.recorded
      ensures FullyExecuted(files, t.log, i)
    {
      StillExecuted(files, s, t, id, i);
    }
  }

  /** What a runner has fully executed does not change: it is past that file. */
  lemma StillExecuted(files: seq<File>, s: State, t: State, id: nat, i: nat)
    requires FullyExecuted(files, s.log, i) && id in s.runners && s.runners[id].Executing?
    requires RunnerValid(files, s, id, s.runners[id])
    requires forall x, f :: x != id || f != s.runners[id].file ==> Done(t.log, x, f) == Done(s.log, x, f)
    ensures FullyExecuted(files, t.log, i)
  {
    hide Done, StatementsOf;
    var n := |StatementsOf(files[i]).value|;
    var x :| Done(s.log, x, i) == Upto(n);
    assert |Upto(n)| == n && |Upto(s.runners[id].statement)| == s.runners[id].statement;
    assert Done(t.log, x, i) == Upto(n);
  }

  lemma {:induction false} TryKeepsValid(files: seq<File>, s: State, id: nat, outcome: Attempt, tookEffect: bool)
    requires Valid(files, s) && DistinctVersions(files)
    ensures Valid(files, NextTry(files, s, id, outcome, tookEffect))
  {
    if id in s.runners && !s.runners[id].Applied? && !s.runners[id].Stopped? && IsAt(s.runners[id], files) {
      hide Done, IsPrefix, StatementsOf, FullyExecuted, Upto;
      var r, t := s.runners[id], NextTry(files, s, id, outcome, tookEffect);
      assert RunnerValid(files, s, id, r);
      if r.Executing? && outcome == Succeeds {
        ExecuteKeepsValid(files, s, id);
      } else if r.Recording? {
        RecordingKeepsValid(files, s, id, outcome, tookEffect);
      } else {
        MovesOn(files, s, id, outcome, tookEffect);
        hide RunnerValid, NextTry;
        MoveKeepsValid(files, s, id, t.runners[id], s.recorded);
        assert SetRunner(s, id, t.runners[id]).(recorded := s.recorded) == t;
      }
    }
  }

  /** A failed attempt, and a successful one that only reads. */
  lemma MovesOn(files: seq<File>, s: State, id: nat, outcome: Attempt, tookEffect: bool)
    requires id in s.runners && IsAt(s.runners[id], files) && RunnerValid(files, s, id, s.runners[id])
    requires var r := s.runners[id];
             && !r.Applied? && !r.Stopped? && !r.Recording? && (r.Executing? ==> outcome != Succeeds)
    ensures var t := NextTry(files, s, id, outcome, tookEffect);
            && id in t.runners && t == SetRunner(s, id, t.runners[id]) && RunnerValid(files, s, id, t.runners[id])
  {
    hide Done, StatementsOf, Upto;
    UptoNone();
  }

  lemma UptoNone()
    ensures Upto(0) == []
  {
  }

  lemma RecordingKeepsValid(files: seq<File>, s: State, id: nat, outcome: Attempt, tookEffect: bool)
    requires Valid(files, s) && DistinctVersions(files)
    requires id in s.runners && s.runners[id].Recording? && IsAt(s.runners[id], files)
    ensures Valid(files, NextTry(files, s, id, outcome, tookEffect))
  {
    hide Done, IsPrefix, StatementsOf, Upto;
    var r, t := s.runners[id], NextTry(files, s, id, outcome, tookEffect);
    assert RunnerValid(files, s, id, r);
    RecordKeepsPrefix(files, s.recorded, r.file);
    assert FullyExecuted(files, s.log, r.file);
    forall i | 0 <= i < |files| && files[i].version in t.recorded
      ensures FullyExecuted(files, s.log, i)
    {
      if files[i].version == files[r.file].version {
        assert i == r.file;
      }
    }
    MoveKeepsValid(files, s, id, t.runners[id], t.recorded);
  }

  lemma {:induction false} RunIsValid(files: seq<File>, events: seq<Event>)
    requires DistinctVersions(files)
    ensures Valid(files, Run(files, events))
  {
    if events == [] {
      assert Names(files, 0) == {};
    } else {
      hide NextTry, IsPrefix, FullyExecuted, StatementsOf;
      RunIsValid(files, events[..|events| - 1]);
      var s, e := Run(files, events[..|events| - 1]), events[|events| - 1];
      match e
      case Start(id) =>
        if id !in s.runners {
          MoveKeepsValid(files, s, id, CreatingTable(0), s.recorded);
        }
      case Stop(id) =>
        if id in s.runners {
          MoveKeepsValid(files, s, id, Stopped, s.recorded);
        }
      case Try(id, outcome, tookEffect) => TryKeepsValid(files, s, id, outcome, tookEffect);
    }
  }

  // ----- Safety over whole runs -----

  /** From an empty version table, however many runners there are and however they fail: what is recorded is a
      prefix of the sorted files. */
  lemma RecordedIsPrefix(files: seq<File>, events: seq<Event>)
    requires DistinctVersions(files)
    ensures exists n :: 0 <= n <= |files| && Run(files, events).recorded == Names(files, n)
  {
    RunIsValid(files, events);
  }

  /** Each recorded version had all its statements acknowledged, in order, to one runner. */
  lemma RecordedIsExecuted(files: seq<File>, events: seq<Event>, file: nat)
    requires DistinctVersions(files) && file < |files|
    requires files[file].version in Run(files, events).recorded
    ensures StatementsOf(files[file]).Some?
    ensures exists id :: Done(Run(files, events).log, id, file) == Upto(|StatementsOf(files[file]).value|)
  {
    RunIsValid(files, events);
    assert FullyExecuted(files, Run(files, events).log, file);
  }

  /** A runner that reports success leaves every version recorded. */
  lemma AppliedMeansAllRecorded(files: seq<File>, events: seq<Event>, id: nat)
    requires DistinctVersions(files)
    requires id in Run(files, events).runners && Run(files, events).runners[id] == Applied
    ensures Run(files, events).recorded == Names(files, |files|)
  {
    hide FullyExecuted, Run;
    RunIsValid(files, events);
    var s := Run(files, events);
    assert RunnerValid(files, s, id, s.runners[id]);
    var n :| 0 <= n <= |files| && s.recorded == Names(files, n);
    NamesAre(files, n);
    NamesAre(files, |files|);
    assert forall v :: v in Names(files, |files|) ==> v in s.recorded;
  }

  /** What is recorded stays recorded. */
  lemma RecordedStays(files: seq<File>, s: State, e: Event)
    ensures s.recorded <= Next(files, s, e).recorded
  {
  }

  // ----- Runners that come later -----

  /** A runner that starts has five tries for its first operation; one that stops never goes on. */
  lemma StartAndStop(files: seq<File>, s: State, id: nat, e: Event)
    ensures id !in s.runners ==> Next(files, s, Start(id)) == s.(runners := s.runners[id := CreatingTable(0)])
    ensures id in s.runners ==> Next(files, s, Stop(id)) == s.(runners := s.runners[id := Stopped])
    ensures id in s.runners && s.runners[id].Stopped? ==>
      id in Next(files, s, e).runners && Next(files, s, e).runners[id].Stopped?
  {
    hide StatementsOf;
  }

  /** The runner neither executes this file nor records it. */
  predicate IsElsewhere(r: Runner, file: nat) {
    match r
    case Executing(f, _, _) => f != file
    case Recording(f, _) => f != file
    case _ => true
  }

  /** The file is recorded, and the runner has executed nothing of it and will not. */
  ghost predicate Skips(files: seq<File>, s: State, id: nat, file: nat)
    requires file < |files|
  {
    && files[file].version in s.recorded && Done(s.log, id, file) == []
    && (id in s.runners ==> IsElsewhere(s.runners[id], file))
  }

  lemma StaysElsewhere(files: seq<File>, s: State, id: nat, file: nat, e: Event)
    requires file < |files| && files[file].version in s.recorded
    requires id in s.runners ==> IsElsewhere(s.runners[id], file)
    ensures var t := Next(files, s, e); id in t.runners ==> IsElsewhere(t.runners[id], file)
  {
    hide StatementsOf;
  }

  /** Only a runner's own execution is logged for it, and only where it stands. */
  lemma LogGrows(files: seq<File>, s: State, id: nat, file: nat, e: Event)
    requires id in s.runners ==> IsElsewhere(s.runners[id], file)
    requires Done(s.log, id, file) == []
    ensures Done(Next(files, s, e).log, id, file) == []
  {
    hide Done, StatementsOf;
    if e.Try? && e.runner in s.runners && s.runners[e.runner].Executing? {
      DoneStep(s.log, Executed(e.runner, s.runners[e.runner].file, s.runners[e.runner].statement), id, file);
    }
  }

  lemma SkipsStep(files: seq<File>, s: State, id: nat, file: nat, e: Event)
    requires file < |files| && Skips(files, s, id, file)
    ensures Skips(files, Next(files, s, e), id, file)
  {
    hide Next, Done, IsElsewhere;
    RecordedStays(files, s, e);
    StaysElsewhere(files, s, id, file, e);
    LogGrows(files, s, id, file, e);
  }

  lemma DoneStep(log: seq<Executed>, x: Executed, id: nat, file: nat)
    ensures Done(log + [x], id, file)
         == Done(log, id, file) + if x.runner == id && x.file == file then [x.statement] else []
  {
    assert (log + [x])[..|log|] == log;
  }

  /** A file that is recorded before a runner starts is never executed by that runner. */
  lemma {:induction false} RecordedIsSkipped(files: seq<File>, events: seq<Event>, n: nat, id: nat, file: nat)
    requires n <= |events| && file < |files| && DistinctVersions(files)
    requires id !in Run(files, events[..n]).runners
    requires files[file].version in Run(files, events[..n]).recorded
    ensures Skips(files, Run(files, events), id, file) && Done(Run(files, events).log, id, file) == []
  {
    hide Next, Done;
    if n == |events| {
      assert events[..n] == events;
      RunIsValid(files, events);
    } else {
      var before := events[..|events| - 1];
      assert before[..n] == events[..n];
      RecordedIsSkipped(files, before, n, id, file);
      SkipsStep(files, Run(files, before), id, file, events[|events| - 1]);
    }
  }
}
