/** Creating a link over a network that loses requests and answers. */
module CreateRetry {
  import opened Common
  import opened Repository

  const MAX_CREATE_ATTEMPTS: nat := 5

  /** What the client built: a record, request hash included, under a fresh storage key. */
  datatype Artifact = Artifact(key: Key, record: Record)

  /** What becomes of one request. One that is refused is answered, but the checks between the handler's lookup and
      its create do not let it through. */
  datatype Delivery = LostRequest | LostAnswer | Refused | Delivered

  datatype Reply = Accepted(result: CreateResult) | ConflictError | TransportError | OtherError

  /** One request of the client: which artifact it carried and what it saw. */
  datatype Submission = Submission(attempt: nat, reply: Reply)

  datatype ClientResult = Returned(artifact: Artifact, result: CreateResult) | Thrown

  /** The handler's lookup, which no expiry hides: a replay, a conflict, or nothing there. */
  function Lookup(records: Records, a: Artifact): Option<Outcome<CreateResult>> {
    if !IsLive(records, a.key, 0) then None
    else if records[a.key].requestHash == a.record.requestHash then
      Some(Done(CreateResult(records[a.key].expiresAt, true)))
    else Some(Failed(Conflict))
  }

  /** The create handler when nothing comes between its lookup and its create. */
  function Handle(records: Records, a: Artifact): (Records, Outcome<CreateResult>) {
    var found := Lookup(records, a);
    if found.Some? then (records, found.value) else AfterCreate(records, a.key, a.record)
  }

  /** The create handler when what comes between its lookup and its create, the CAPTCHA check first of all, lets the
      request through or not. A refusal has no outcome. */
  function HandleChecked(records: Records, a: Artifact, passes: bool): (Records, Option<Outcome<CreateResult>>) {
    var found := Lookup(records, a);
    if found.Some? then (records, found)
    else if !passes then (records, None)
    else
      var (after, outcome) := AfterCreate(records, a.key, a.record);
      (after, Some(outcome))
  }

  /** Only a request that its lookup does not answer can be refused; a refusal changes nothing, and everybody else is
      handled. */
  lemma RefusedOrHandled(records: Records, a: Artifact, passes: bool)
    ensures var (after, outcome) := HandleChecked(records, a, passes);
            && (outcome.None? <==> !passes && !IsLive(records, a.key, 0))
            && (outcome.None? ==> after == records)
            && (outcome.Some? ==> (after, outcome.value) == Handle(records, a))
  {
  }

  function ReplyOf(outcome: Outcome<CreateResult>): Reply {
    match outcome
    case Done(result) => Accepted(result)
    case Failed(error) => if error == Conflict then ConflictError else OtherError
  }

  function ReplyTo(outcome: Option<Outcome<CreateResult>>): Reply {
    if outcome.None? then OtherError else ReplyOf(outcome.value)
  }

  /** The artifact, or one with the same request hash, is stored under its key. */
  predicate IsStored(records: Records, a: Artifact) {
    a.key in records && records[a.key].requestHash == a.record.requestHash
  }

  /** What handling a request does: it never changes a stored record, it adds at most this artifact, it accepts
      exactly when the artifact is stored afterwards, and it tells a conflict exactly when another one is. */
  lemma HandleFacts(records: Records, a: Artifact)
    ensures var (after, outcome) := Handle(records, a);
            && (after == records || (a.key !in records && after == records[a.key := a.record]))
            && (outcome.Done? ==> IsStored(after, a) && outcome.value.expiresAt == after[a.key].expiresAt)
            && (outcome.Done? ==> outcome.value.replayed == (a.key in records))
            && (IsStorable(a.record) ==> (outcome.Done? <==> IsStored(after, a)))
            && (outcome == Failed(Conflict) ==> after == records && a.key in records && !IsStored(records, a))
  {
  }

  /** Handling the same request again changes nothing and is a replay. */
  lemma ResubmissionIsReplayed(records: Records, a: Artifact)
    requires Handle(records, a).1.Done?
    ensures var (after, outcome) := Handle(records, a);
            Handle(after, a) == (after, Done(CreateResult(outcome.value.expiresAt, true)))
  {
  }

  /** Lookup and create are locked one by one, but nothing is lost by taking them as one step: a create, whatever the
      lookup before it missed, does what the whole handler does at that instant. */
  lemma CreateAloneIsHandle(records: Records, a: Artifact)
    requires IsStorable(a.record)
    ensures AfterCreate(records, a.key, a.record) == Handle(records, a)
  {
  }

  class Server {
    var records: Records
    /** Every request of the client, in order. */
    ghost var log: seq<Submission>

    constructor (records: Records)
      ensures this.records == records && log == []
    {
      this.records, this.log := records, [];
    }

    /** Whatever other clients may do in the meantime; nothing when this one is alone. */
    method OtherClients(ghost alone: bool)
      modifies this
      ensures log == old(log) && (alone ==> records == old(records))
    {
    }

    /** The handler's lookup, its checks and its create; `before` is the store at the last of them that was reached,
        which is when the request takes effect. */
    method HandleRequest(a: Artifact, passes: bool, ghost alone: bool)
      returns (outcome: Option<Outcome<CreateResult>>, ghost before: Records)
      modifies this
      ensures log == old(log)
      ensures outcome.None? ==> !passes && records == before
      ensures outcome.Some? && !passes ==> IsLive(before, a.key, 0)
      ensures outcome.Some? && outcome.value.Done? ==>
                IsStored(records, a) && outcome.value.value.expiresAt == records[a.key].expiresAt
      ensures outcome.Some? && IsStorable(a.record) ==> (records, outcome.value) == Handle(before, a)
      ensures alone ==> before == old(records) && (records, outcome) == HandleChecked(before, a, passes)
    {
      OtherClients(alone);
      before := records;
      var found := Lookup(records, a);
      if found.Some? {
        return found, before;
      }
      OtherClients(alone);
      before := records;
      if !passes {
        return None, before;
      }
      if IsStorable(a.record) {
        CreateAloneIsHandle(records, a);
      }
      var (after, created) := AfterCreate(records, a.key, a.record);
      records := after;
      outcome := Some(created);
    }

    /** One request: handled unless it is lost, and seen unless its answer is. */
    method Submit(a: Artifact, delivery: Delivery, ghost attempt: nat, ghost alone: bool) returns (reply: Reply)
      modifies this
      ensures log == old(log) + [Submission(attempt, reply)]
      ensures reply.Accepted? ==> IsStored(records, a) && reply.result.expiresAt == records[a.key].expiresAt
      ensures reply == TransportError <==> delivery == LostRequest || delivery == LostAnswer
      ensures alone ==> (records, reply) == Submitted(old(records), a, delivery)
    {
      hide Handle, HandleChecked, IsStored;
      if delivery == LostRequest {
        OtherClients(alone);
        reply := TransportError;
      } else {
        var outcome, _ := HandleRequest(a, delivery != Refused, alone);
        RefusedOrHandled(old(records), a, delivery != Refused);
        reply := if delivery == LostAnswer then TransportError else ReplyTo(outcome);
      }
      log := log + [Submission(attempt, reply)];
    }
  }

  /** What one request leaves in the store and shows the client. */
  function Submitted(records: Records, a: Artifact, delivery: Delivery): (Records, Reply) {
    match delivery
    case LostRequest => (records, TransportError)
    case LostAnswer => (Handle(records, a).0, TransportError)
    case Refused => var (after, outcome) := HandleChecked(records, a, false); (after, ReplyTo(outcome))
    case Delivered => var (after, outcome) := Handle(records, a); (after, ReplyOf(outcome))
  }

  /** What one turn of the client's loop leaves: a request, and a second one after a transport error. */
  function TurnOf(records: Records, a: Artifact, network: nat -> Delivery, attempt: nat)
    : (Records, seq<Submission>, Reply)
  {
    var (after, reply) := Submitted(records, a, network(attempt));
    if reply != TransportError then (after, [Submission(attempt, reply)], reply)
    else
      var (afterAgain, again) := Submitted(after, a, network(attempt + 1));
      (afterAgain, [Submission(attempt, reply), Submission(attempt, again)], again)
  }

  /** How a client ends. */
  datatype Ending = Ending(records: Records, sent: seq<Submission>, result: ClientResult, builds: nat)

  function ResultOf(a: Artifact, reply: Reply): ClientResult {
    if reply.Accepted? then Returned(a, reply.result) else Thrown
  }

  /** A client that nobody interferes with, from its given attempt on. */
  function Attempts(records: Records, build: nat -> Artifact, network: nat -> Delivery, attempt: nat): Ending
    decreases MAX_CREATE_ATTEMPTS - attempt
  {
    if attempt >= MAX_CREATE_ATTEMPTS then Ending(records, [], Thrown, attempt)
    else
      var (after, turn, reply) := TurnOf(records, build(attempt), network, attempt);
      if |turn| == 1 && reply == ConflictError then
        var rest := Attempts(after, build, network, attempt + 1);
        rest.(sent := turn + rest.sent)
      else Ending(after, turn, ResultOf(build(attempt), reply), attempt + 1)
  }

  /** Every artifact so far met a conflict. */
  ghost predicate OnlyConflicts(sent: seq<Submission>, attempt: nat) {
    |sent| == attempt && forall i :: 0 <= i < attempt ==> sent[i] == Submission(i, ConflictError)
  }

  /** After these requests a client that nobody interferes with goes on from here. */
  ghost predicate Continues(end: Ending, sent: seq<Submission>, records: Records, build: nat -> Artifact,
                            network: nat -> Delivery, attempt: nat)
  {
    var rest := Attempts(records, build, network, attempt);
    end == rest.(sent := sent + rest.sent)
  }

  /** What the requests of a client that has ended say about its result. */
  ghost predicate EndsWith(sent: seq<Submission>, builds: nat, r: ClientResult, build: nat -> Artifact) {
    && 1 <= builds <= MAX_CREATE_ATTEMPTS && builds <= |sent| <= builds + 1
    && (forall i :: 0 <= i < builds - 1 ==> sent[i] == Submission(i, ConflictError))
    && (forall i :: builds - 1 <= i < |sent| ==> sent[i].attempt == builds - 1)
    && (|sent| == builds + 1 <==> sent[builds - 1].reply == TransportError)
    && (r.Returned? <==> sent[|sent| - 1].reply.Accepted?)
    && (r.Returned? ==> r.artifact == build(builds - 1) && sent[|sent| - 1].reply == Accepted(r.result))
    && (|sent| == builds && sent[builds - 1].reply == ConflictError ==> builds == MAX_CREATE_ATTEMPTS)
  }

  /** The same artifact is sent a second time exactly after a transport error. */
  ghost predicate IsTurn(turn: seq<Submission>, attempt: nat, reply: Reply) {
    || (turn == [Submission(attempt, reply)] && reply != TransportError)
    || turn == [Submission(attempt, TransportError), Submission(attempt, reply)]
  }

  /** The try block and its handler. */
  method SubmitAndResend(server: Server, artifact: Artifact, network: nat -> Delivery, attempt: nat, ghost alone: bool)
    returns (reply: Reply, resent: bool, ghost turn: seq<Submission>)
    modifies server
    ensures server.log == old(server.log) + turn && IsTurn(turn, attempt, reply)
    ensures |turn| == if resent then 2 else 1
    ensures reply.Accepted? ==> IsStored(server.records, artifact)
                                && reply.result.expiresAt == server.records[artifact.key].expiresAt
    ensures alone ==> (server.records, turn, reply) == TurnOf(old(server.records), artifact, network, attempt)
  {
    hide Submitted, IsStored;
    reply := server.Submit(artifact, network(attempt), attempt, alone);
    resent, turn := false, [Submission(attempt, reply)];
    if reply == TransportError {
      reply := server.Submit(artifact, network(attempt + 1), attempt, alone);
      resent, turn := true, turn + [Submission(attempt, reply)];
    }
  }

  /**
   * createWithCollisionRetries: at most five artifacts are built and six requests sent. The next artifact is built
   * exactly after a conflict, the same one is sent again exactly after a transport error, and an accepted reply is
   * returned with the last artifact built, which is then stored under its key and hash. When no other client
   * interferes, everything is as `Attempts` says.
   */
  method CreateWithCollisionRetries(server: Server, build: nat -> Artifact, network: nat -> Delivery, ghost alone: bool)
    returns (r: ClientResult, ghost builds: nat, ghost sent: seq<Submission>)
    modifies server
    ensures server.log == old(server.log) + sent && EndsWith(sent, builds, r, build)
    ensures 1 <= builds <= 5
    ensures sent[|sent| - 1].reply == ConflictError ==>
              r == Thrown && (builds == 5 || sent[builds - 1].reply == TransportError)
    ensures r.Returned? ==> IsStored(server.records, r.artifact)
                            && r.result.expiresAt == server.records[r.artifact.key].expiresAt
    ensures alone ==>
      Ending(server.records, sent, r, builds) == Attempts(old(server.records), build, network, 0)
    ensures alone ==> AddsAtMost(old(server.records), server.records, build(builds - 1))
  {
    hide TurnOf, IsTurn, IsStored, AddsAtMost, EndsWith, GoesOn, HasEnded, Attempts, ResultOf;
    AddsAtMostLast(server.records, build, network);
    var attempt := 0;
    builds, sent := 0, [];
    ghost var end := Attempts(server.records, build, network, 0);
    Starts(alone, server.records, build, network);
    while attempt < MAX_CREATE_ATTEMPTS
      invariant attempt <= MAX_CREATE_ATTEMPTS && builds == attempt && server.log == old(server.log) + sent
      invariant GoesOn(alone, end, sent, server.records, build, network, attempt)
    {
      var artifact := build(attempt);
      builds := attempt + 1;
      ghost var before := server.records;
      var reply, resent, turn := SubmitAndResend(server, artifact, network, attempt, alone);
      LogGrows(old(server.log), sent, turn);
      TurnIsTaken(alone, end, sent, before, server.records, build, network, attempt, turn, reply);
      sent := sent + turn;
      if resent || reply != ConflictError {
        ResultIs(artifact, reply);
        r := ResultOf(artifact, reply);
        EndedMeans(alone, end, sent, server.records, r, builds, build);
        return;
      }
      attempt := attempt + 1;
    }
    r := Thrown;
    NoneLeft(alone, end, sent, server.records, build, network);
    EndedMeans(alone, end, sent, server.records, r, builds, build);
  }

  /** The client may go on with its next attempt, alone as the function that ends in `end`. */
  ghost predicate GoesOn(alone: bool, end: Ending, sent: seq<Submission>, records: Records, build: nat -> Artifact,
                         network: nat -> Delivery, attempt: nat)
  {
    OnlyConflicts(sent, attempt) && (alone ==> Continues(end, sent, records, build, network, attempt))
  }

  ghost predicate HasEnded(alone: bool, end: Ending, sent: seq<Submission>, records: Records, r: ClientResult,
                           builds: nat, build: nat -> Artifact)
  {
    EndsWith(sent, builds, r, build) && (alone ==> end == Ending(records, sent, r, builds))
  }

  lemma Starts(alone: bool, records: Records, build: nat -> Artifact, network: nat -> Delivery)
    ensures GoesOn(alone, Attempts(records, build, network, 0), [], records, build, network, 0)
  {
    hide Attempts;
    var sent := Attempts(records, build, network, 0).sent;
    assert [] + sent == sent;
  }

  lemma LogGrows(log: seq<Submission>, sent: seq<Submission>, turn: seq<Submission>)
    ensures (log + sent) + turn == log + (sent + turn)
  {
  }

  /** One turn of the loop, alone. */
  lemma Turn(end: Ending, sent: seq<Submission>, records: Records, build: nat -> Artifact, network: nat -> Delivery,
             attempt: nat)
    requires attempt < MAX_CREATE_ATTEMPTS && Continues(end, sent, records, build, network, attempt)
    ensures var (after, turn, reply) := TurnOf(records, build(attempt), network, attempt);
            if |turn| == 1 && reply == ConflictError
            then Continues(end, sent + turn, after, build, network, attempt + 1)
            else end == Ending(after, sent + turn, ResultOf(build(attempt), reply), attempt + 1)
  {
    hide TurnOf;
    var (after, turn, reply) := TurnOf(records, build(attempt), network, attempt);
    var rest := Attempts(after, build, network, attempt + 1).sent;
    assert sent + (turn + rest) == (sent + turn) + rest;
  }

  /** After a turn the client goes on or has ended, and alone as `Attempts` says. */
  lemma TurnIsTaken(alone: bool, end: Ending, sent: seq<Submission>, before: Records, after: Records,
                    build: nat -> Artifact, network: nat -> Delivery, attempt: nat, turn: seq<Submission>, reply: Reply)
    requires attempt < MAX_CREATE_ATTEMPTS && IsTurn(turn, attempt, reply)
    requires GoesOn(alone, end, sent, before, build, network, attempt)
    requires alone ==> (after, turn, reply) == TurnOf(before, build(attempt), network, attempt)
    ensures if |turn| == 1 && reply == ConflictError
            then GoesOn(alone, end, sent + turn, after, build, network, attempt + 1)
            else HasEnded(alone, end, sent + turn, after, ResultOf(build(attempt), reply), attempt + 1, build)
  {
    hide TurnOf, IsTurn, OnlyConflicts, EndsWith, Continues, ResultOf;
    EndsAfter(sent, attempt, turn, reply, build);
    if alone {
      Turn(end, sent, before, build, network, attempt);
    }
  }

  lemma ResultIs(a: Artifact, reply: Reply)
    ensures ResultOf(a, reply) == if reply.Accepted? then Returned(a, reply.result) else Thrown
  {
  }

  lemma NoneLeft(alone: bool, end: Ending, sent: seq<Submission>, records: Records, build: nat -> Artifact,
                 network: nat -> Delivery)
    requires GoesOn(alone, end, sent, records, build, network, MAX_CREATE_ATTEMPTS)
    ensures HasEnded(alone, end, sent, records, Thrown, MAX_CREATE_ATTEMPTS, build)
  {
    assert sent + [] == sent;
  }

  lemma EndsAfter(sent: seq<Submission>, attempt: nat, turn: seq<Submission>, reply: Reply, build: nat -> Artifact)
    requires OnlyConflicts(sent, attempt) && attempt < MAX_CREATE_ATTEMPTS && IsTurn(turn, attempt, reply)
    ensures |turn| == 1 && reply == ConflictError ==> OnlyConflicts(sent + turn, attempt + 1)
    ensures !(|turn| == 1 && reply == ConflictError) ==>
      EndsWith(sent + turn, attempt + 1, ResultOf(build(attempt), reply), build)
  {
  }

  lemma EndedMeans(alone: bool, end: Ending, sent: seq<Submission>, records: Records, r: ClientResult, builds: nat,
                   build: nat -> Artifact)
    requires HasEnded(alone, end, sent, records, r, builds, build)
    ensures 0 < builds <= |sent| && builds <= 5 && EndsWith(sent, builds, r, build)
    ensures sent[|sent| - 1].reply == ConflictError ==>
              r == Thrown && (builds == MAX_CREATE_ATTEMPTS || sent[builds - 1].reply == TransportError)
    ensures alone ==> end == Ending(records, sent, r, builds)
  {
  }

  // ----- A client alone -----

  /** Nothing changed, or exactly this artifact was added. */
  ghost predicate AddsAtMost(before: Records, after: Records, a: Artifact) {
    after == before || (a.key !in before && after == before[a.key := a.record])
  }

  lemma SubmittedAddsAtMost(before: Records, records: Records, a: Artifact, delivery: Delivery)
    requires AddsAtMost(before, records, a)
    ensures AddsAtMost(before, Submitted(records, a, delivery).0, a)
    ensures Submitted(records, a, delivery).1.Accepted? ==> IsStored(Submitted(records, a, delivery).0, a)
    ensures Submitted(records, a, delivery).1 == ConflictError ==>
      Submitted(records, a, delivery).0 == records && a.key in records && !IsStored(records, a)
  {
    HandleFacts(records, a);
    RefusedOrHandled(records, a, false);
  }

  /** The store has gained at most the last artifact built, and has it when the client returns. */
  ghost predicate Stores(records: Records, end: Ending, build: nat -> Artifact, attempt: nat) {
    && (if attempt < MAX_CREATE_ATTEMPTS
        then attempt < end.builds <= MAX_CREATE_ATTEMPTS && AddsAtMost(records, end.records, build(end.builds - 1))
        else end.records == records && end.builds == attempt)
    && (end.result.Returned? ==> IsStored(end.records, end.result.artifact))
  }

  /** However many requests and answers are lost, the store gains at most the last artifact built, and has gained or
      had it when the client returns. */
  lemma {:induction false} StoresAtMostOne(records: Records, build: nat -> Artifact, network: nat -> Delivery,
                                           attempt: nat)
    ensures Stores(records, Attempts(records, build, network, attempt), build, attempt)
    decreases MAX_CREATE_ATTEMPTS - attempt
  {
    hide TurnOf, Attempts, Stores;
    if attempt < MAX_CREATE_ATTEMPTS {
      var (after, turn, reply) := TurnOf(records, build(attempt), network, attempt);
      AttemptsUnfold(records, build, network, attempt);
      TurnFacts(records, build(attempt), network, attempt);
      StoresAtMostOne(after, build, network, attempt + 1);
      StoresLater(after, Attempts(after, build, network, attempt + 1), turn, build, attempt);
      StoresNow(records, after, turn, reply, build, attempt);
    } else {
      NothingStored(records, build, network, attempt);
    }
  }

  lemma StoresLater(records: Records, rest: Ending, turn: seq<Submission>, build: nat -> Artifact, attempt: nat)
    requires attempt < MAX_CREATE_ATTEMPTS && Stores(records, rest, build, attempt + 1)
    ensures Stores(records, rest.(sent := turn + rest.sent), build, attempt)
  {
  }

  lemma StoresNow(records: Records, after: Records, turn: seq<Submission>, reply: Reply, build: nat -> Artifact,
                  attempt: nat)
    requires attempt < MAX_CREATE_ATTEMPTS && AddsAtMost(records, after, build(attempt))
    requires reply.Accepted? ==> IsStored(after, build(attempt))
    ensures Stores(records, Ending(after, turn, ResultOf(build(attempt), reply), attempt + 1), build, attempt)
  {
  }

  lemma NothingStored(records: Records, build: nat -> Artifact, network: nat -> Delivery, attempt: nat)
    requires attempt >= MAX_CREATE_ATTEMPTS
    ensures Stores(records, Attempts(records, build, network, attempt), build, attempt)
  {
  }

  lemma AttemptsUnfold(records: Records, build: nat -> Artifact, network: nat -> Delivery, attempt: nat)
    requires attempt < MAX_CREATE_ATTEMPTS
    ensures var (after, turn, reply) := TurnOf(records, build(attempt), network, attempt);
            var end, rest := Attempts(records, build, network, attempt), Attempts(after, build, network, attempt + 1);
            if |turn| == 1 && reply == ConflictError then end == rest.(sent := turn + rest.sent)
            else end == Ending(after, turn, ResultOf(build(attempt), reply), attempt + 1)
  {
    hide TurnOf;
  }

  lemma TurnFacts(records: Records, a: Artifact, network: nat -> Delivery, attempt: nat)
    ensures var (after, turn, reply) := TurnOf(records, a, network, attempt);
            && AddsAtMost(records, after, a)
            && (reply.Accepted? ==> IsStored(after, a))
            && (|turn| == 1 && reply == ConflictError ==> after == records)
  {
    hide Submitted, AddsAtMost, IsStored;
    var after := Submitted(records, a, network(attempt)).0;
    NothingAdded(records, a);
    SubmittedAddsAtMost(records, records, a, network(attempt));
    SubmittedAddsAtMost(records, after, a, network(attempt + 1));
  }

  lemma NothingAdded(records: Records, a: Artifact)
    ensures AddsAtMost(records, records, a)
  {
  }

  lemma AddsAtMostLast(records: Records, build: nat -> Artifact, network: nat -> Delivery)
    ensures var end := Attempts(records, build, network, 0);
            end.builds > 0 && AddsAtMost(records, end.records, build(end.builds - 1))
  {
    StoresAtMostOne(records, build, network, 0);
  }

  /** A lost answer does no harm: the request that follows is answered as a replay, and the artifact is stored once. */
  lemma LostAnswerIsReplayed(records: Records, build: nat -> Artifact, network: nat -> Delivery)
    requires build(0).key !in records && IsStorable(build(0).record)
    requires network(0) == LostAnswer && network(1) == Delivered
    ensures var a := build(0);
            Attempts(records, build, network, 0)
            == Ending(records[a.key := a.record],
                      [Submission(0, TransportError), Submission(0, Accepted(CreateResult(a.record.expiresAt, true)))],
                      Returned(a, CreateResult(a.record.expiresAt, true)), 1)
  {
  }

  /** The input at which this shows: the first request is lost, and the second meets another record under its key.
      The client throws, even if every other artifact it could build would be stored. */
  lemma TransportErrorThenConflictThrows(records: Records, build: nat -> Artifact, network: nat -> Delivery)
    requires IsLive(records, build(0).key, 0) && !IsStored(records, build(0))
    requires network(0) == LostRequest && network(1) == Delivered
    ensures Attempts(records, build, network, 0)
         == Ending(records, [Submission(0, TransportError), Submission(0, ConflictError)], Thrown, 1)
  {
  }

  /** The same conflict without the transport error is retried, and the next artifact is stored. */
  lemma ConflictAloneIsRetried(records: Records, build: nat -> Artifact, network: nat -> Delivery)
    requires IsLive(records, build(0).key, 0) && !IsStored(records, build(0))
    requires build(1).key !in records && IsStorable(build(1).record)
    requires network(0) == network(1) == Delivered
    ensures var a := build(1);
            Attempts(records, build, network, 0)
            == Ending(records[a.key := a.record],
                      [Submission(0, ConflictError), Submission(1, Accepted(CreateResult(a.record.expiresAt, false)))],
                      Returned(a, CreateResult(a.record.expiresAt, false)), 2)
  {
    var a := build(1);
    var next := Attempts(records, build, network, 1);
    assert next == Ending(records[a.key := a.record],
                          [Submission(1, Accepted(CreateResult(a.record.expiresAt, false)))],
                          Returned(a, CreateResult(a.record.expiresAt, false)), 2);
    assert Submitted(records, build(0), network(0)) == (records, ConflictError);
  }
}
