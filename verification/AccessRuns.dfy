/** Interleaved creates, plain reads, protected accesses and cleanups, each store operation one atomic step. */
module AccessRuns {
  import opened Common
  import opened RequestIdentity
  import opened Repository
  import opened Access

  /** A storage key may be used again after a burn; each time, an incarnation of the key is stored. */
  datatype Stored = Stored(record: Record, incarnation: nat)

  /** What was created under which key. */
  datatype Birth = Birth(key: Key, input: CreateInput, nonce: Bytes)

  /** How far an access has come; `seen` is what Get returned. */
  datatype Caller =
    | HasGot(key: Key, now: Time, token: string, seen: Stored)
    | HasChecked(key: Key, now: Time, seen: Stored)
    | HasRecord(key: Key, seen: Stored, held: Stored)
    | Ended

  /** An answered access. */
  datatype Answer = Answer(key: Key, seen: Stored, released: Stored, captchaKey: Option<Bytes>)

  datatype State = State(
    records: map<Key, Stored>,
    births: seq<Birth>,
    callers: map<nat, Caller>,
    /** Which caller consumed which incarnation. */
    takers: map<nat, nat>,
    answers: map<nat, Answer>,
    /** What plain reads have returned. */
    shown: seq<Stored>)

  const START := State(map[], [], map[], map[], map[], [])

  datatype Event =
    | Create(key: Key, input: CreateInput, nonce: Bytes)
    | PlainGet(key: Key, now: Time)
    | Get(caller: nat, key: Key, now: Time, token: string, cancelled: bool)
    | Check(caller: nat, configured: bool, verified: bool)
    | Consume(caller: nat, cancelled: bool)
    | Answered(caller: nat)
    | Cleanup(now: Time, gone: set<Key>)

  function Contents(s: State): Records {
    map k | k in s.records :: s.records[k].record
  }

  function Live(s: State, key: Key, now: Time): bool {
    key in s.records && !HasExpired(now, s.records[key].record.expiresAt)
  }

  /** Repository.Create on what the handler built. */
  function NextCreate(w: KeyWrapper, s: State, key: Key, input: CreateInput, nonce: Bytes): State {
    var record := RecordOf(w, key, input, nonce);
    if IsValidInput(input) && |nonce| == GCM_NONCE_LENGTH && IsStorable(record) && key !in s.records then
      s.(records := s.records[key := Stored(record, |s.births|)], births := s.births + [Birth(key, input, nonce)])
    else s
  }

  function NextPlainGet(s: State, key: Key, now: Time): State {
    if Live(s, key, now) && !NeedsCaptcha(s.records[key].record) && !BurnAfterRead(s.records[key].record) then
      s.(shown := s.shown + [s.records[key]])
    else s
  }

  function SetCaller(s: State, caller: nat, c: Caller): State {
    s.(callers := s.callers[caller := c])
  }

  function NextGet(s: State, caller: nat, key: Key, now: Time, token: string, cancelled: bool): State {
    if caller in s.callers then s
    else SetCaller(s, caller,
      if !cancelled && Live(s, key, now) then HasGot(key, now, token, s.records[key]) else Ended)
  }

  function NextCheck(s: State, caller: nat, configured: bool, verified: bool): State {
    if caller in s.callers && s.callers[caller].HasGot? then
      var c := s.callers[caller];
      SetCaller(s, caller,
        if Objection(c.seen.record, c.token, configured, _ => verified).Some? then Ended
        else if BurnAfterRead(c.seen.record) then HasChecked(c.key, c.now, c.seen)
        else HasRecord(c.key, c.seen, c.seen))
    else s
  }

  function NextConsume(s: State, caller: nat, cancelled: bool): State {
    if caller in s.callers && s.callers[caller].HasChecked? then
      var c := s.callers[caller];
      if !cancelled && Live(s, c.key, c.now) then
        var held := s.records[c.key];
        SetCaller(s, caller, HasRecord(c.key, c.seen, held))
          .(records := s.records - {c.key}, takers := s.takers[held.incarnation := caller])
      else SetCaller(s, caller, Ended)
    else s
  }

  function NextAnswered(w: KeyWrapper, s: State, caller: nat): State {
    if caller in s.callers && s.callers[caller].HasRecord? then
      var c := s.callers[caller];
      var r := Release(w, c.key, c.held.record, NeedsCaptcha(c.seen.record));
      var ended := SetCaller(s, caller, Ended);
      if r.Granted? then ended.(answers := s.answers[caller := Answer(c.key, c.seen, c.held, r.captchaKey)])
      else ended
    else s
  }

  /** Cleanup removes some of what has expired. */
  function NextCleanup(s: State, now: Time, gone: set<Key>): State {
    if forall k :: k in gone ==> k in s.records && HasExpired(now, s.records[k].record.expiresAt) then
      s.(records := s.records - gone)
    else s
  }

  function Next(w: KeyWrapper, s: State, e: Event): State {
    match e
    case Create(key, input, nonce) => NextCreate(w, s, key, input, nonce)
    case PlainGet(key, now) => NextPlainGet(s, key, now)
    case Get(caller, key, now, token, cancelled) => NextGet(s, caller, key, now, token, cancelled)
    case Check(caller, configured, verified) => NextCheck(s, caller, configured, verified)
    case Consume(caller, cancelled) => NextConsume(s, caller, cancelled)
    case Answered(caller) => NextAnswered(w, s, caller)
    case Cleanup(now, gone) => NextCleanup(s, now, gone)
  }

  function Run(w: KeyWrapper, events: seq<Event>): State {
    if events == [] then START else Next(w, Run(w, events[..|events| - 1]), events[|events| - 1])
  }

  // ----- What every run keeps -----

  /** The stored record is what was created as that incarnation of the key. */
  ghost predicate IsBorn(w: KeyWrapper, births: seq<Birth>, key: Key, stored: Stored) {
    && stored.incarnation < |births|
    && births[stored.incarnation].key == key
    && stored.record == RecordOf(w, key, births[stored.incarnation].input, births[stored.incarnation].nonce)
  }

  ghost predicate BirthsValid(births: seq<Birth>) {
    forall i :: 0 <= i < |births| ==> IsValidInput(births[i].input) && |births[i].nonce| == GCM_NONCE_LENGTH
  }

  /** A record with the burn flag is held only by the caller that consumed it. */
  predicate HeldByTaker(takers: map<nat, nat>, stored: Stored, caller: nat) {
    BurnAfterRead(stored.record) ==> stored.incarnation in takers && takers[stored.incarnation] == caller
  }

  ghost predicate StoreValid(w: KeyWrapper, s: State) {
    && BirthsValid(s.births)
    && (forall k :: k in s.records ==> IsBorn(w, s.births, k, s.records[k]))
    && (forall k :: k in s.records ==> s.records[k].incarnation !in s.takers)
    && (forall i :: i in s.takers ==> i < |s.births|)
  }

  ghost predicate CallerValid(w: KeyWrapper, s: State, caller: nat, c: Caller) {
    match c
    case HasGot(key, _, _, seen) => IsBorn(w, s.births, key, seen)
    case HasChecked(key, _, seen) => IsBorn(w, s.births, key, seen)
    case HasRecord(key, seen, held) =>
      && IsBorn(w, s.births, key, seen) && IsBorn(w, s.births, key, held)
      && HeldByTaker(s.takers, held, caller)
    case Ended => true
  }

  ghost predicate AnswerValid(w: KeyWrapper, s: State, caller: nat, a: Answer) {
    && caller in s.callers && s.callers[caller].Ended?
    && IsBorn(w, s.births, a.key, a.seen) && IsBorn(w, s.births, a.key, a.released)
    && HeldByTaker(s.takers, a.released, caller)
    && a.captchaKey == if NeedsCaptcha(a.seen.record) then s.births[a.released.incarnation].input.captchaKey else None
  }

  ghost predicate ShownValid(shown: seq<Stored>) {
    forall i :: 0 <= i < |shown| ==> !NeedsCaptcha(shown[i].record) && !BurnAfterRead(shown[i].record)
  }

  ghost predicate Valid(w: KeyWrapper, s: State) {
    && StoreValid(w, s)
    && (forall c :: c in s.callers ==> CallerValid(w, s, c, s.callers[c]))
    && (forall c :: c in s.answers ==> AnswerValid(w, s, c, s.answers[c]))
    && ShownValid(s.shown)
  }

  lemma BornLater(w: KeyWrapper, births: seq<Birth>, later: seq<Birth>)
    requires births <= later
    ensures forall key, stored :: IsBorn(w, births, key, stored) ==>
      IsBorn(w, later, key, stored) && later[stored.incarnation] == births[stored.incarnation]
  {
    hide RecordOf;
  }

  lemma HeldLater(takers: map<nat, nat>, later: map<nat, nat>)
    requires forall i :: i in takers ==> i in later && later[i] == takers[i]
    ensures forall stored, caller :: HeldByTaker(takers, stored, caller) ==> HeldByTaker(later, stored, caller)
  {
  }

  /** What is known of callers and answers survives new births and the consumption of what is stored. */
  lemma ValidExtends(w: KeyWrapper, s: State, t: State)
    requires Valid(w, s) && StoreValid(w, t) && s.births <= t.births
    requires t.callers == s.callers && t.answers == s.answers && t.shown == s.shown
    requires forall i :: i in s.takers ==> i in t.takers && t.takers[i] == s.takers[i]
    ensures Valid(w, t)
  {
    hide RecordOf, IsValidInput, NeedsCaptcha, BurnAfterRead, IsBorn, HeldByTaker;
    BornLater(w, s.births, t.births);
    HeldLater(s.takers, t.takers);
    forall c | c in t.callers
      ensures CallerValid(w, t, c, t.callers[c])
    {
      assert CallerValid(w, s, c, s.callers[c]);
    }
    forall c | c in t.answers
      ensures AnswerValid(w, t, c, t.answers[c])
    {
      assert AnswerValid(w, s, c, s.answers[c]);
    }
  }

  /** A caller that has not ended moves on. */
  lemma ValidMoves(w: KeyWrapper, s: State, caller: nat, c: Caller)
    requires Valid(w, s) && CallerValid(w, s, caller, c)
    requires caller in s.callers ==> !s.callers[caller].Ended?
    ensures Valid(w, SetCaller(s, caller, c))
  {
    hide RecordOf, IsValidInput, NeedsCaptcha, BurnAfterRead, IsBorn;
    var t := SetCaller(s, caller, c);
    forall x | x in t.callers
      ensures CallerValid(w, t, x, t.callers[x])
    {
      assert x != caller ==> CallerValid(w, s, x, s.callers[x]);
    }
    forall x | x in t.answers
      ensures AnswerValid(w, t, x, t.answers[x])
    {
      assert AnswerValid(w, s, x, s.answers[x]);
    }
  }

  lemma CreateKeepsValid(w: KeyWrapper, s: State, key: Key, input: CreateInput, nonce: Bytes)
    requires Valid(w, s)
    ensures Valid(w, NextCreate(w, s, key, input, nonce))
  {
    hide RecordOf, IsValidInput, NeedsCaptcha, BurnAfterRead, IsStorable;
    var t := NextCreate(w, s, key, input, nonce);
    if t != s {
      assert forall k :: k in s.records ==> IsBorn(w, t.births, k, s.records[k]);
      ValidExtends(w, s, t);
    }
  }

  lemma ConsumeKeepsValid(w: KeyWrapper, s: State, caller: nat, cancelled: bool)
    requires Valid(w, s)
    ensures Valid(w, NextConsume(s, caller, cancelled))
  {
    hide RecordOf, IsValidInput, NeedsCaptcha, BurnAfterRead;
    if caller in s.callers && s.callers[caller].HasChecked? {
      var c := s.callers[caller];
      assert CallerValid(w, s, caller, c);
      if !cancelled && Live(s, c.key, c.now) {
        var held := s.records[c.key];
        var t := s.(records := s.records - {c.key}, takers := s.takers[held.incarnation := caller]);
        forall k | k in t.records
          ensures t.records[k].incarnation !in t.takers
        {
          assert IsBorn(w, s.births, k, s.records[k]) && IsBorn(w, s.births, c.key, held);
        }
        ValidExtends(w, s, t);
        ValidMoves(w, t, caller, HasRecord(c.key, c.seen, held));
      } else {
        ValidMoves(w, s, caller, Ended);
      }
    }
  }

  lemma CheckKeepsValid(w: KeyWrapper, s: State, caller: nat, configured: bool, verified: bool)
    requires Valid(w, s)
    ensures Valid(w, NextCheck(s, caller, configured, verified))
  {
    hide RecordOf, IsValidInput, NeedsCaptcha, BurnAfterRead, IsBorn, Objection;
    if caller in s.callers && s.callers[caller].HasGot? {
      var c := s.callers[caller];
      assert CallerValid(w, s, caller, c);
      ValidMoves(w, s, caller, NextCheck(s, caller, configured, verified).callers[caller]);
    }
  }

  lemma AnsweredKeepsValid(w: KeyWrapper, s: State, caller: nat)
    requires Valid(w, s) && WrapperLaws(w)
    ensures Valid(w, NextAnswered(w, s, caller))
  {
    hide RecordOf, IsValidInput, NeedsCaptcha, BurnAfterRead, Release, WrapperLaws;
    if caller in s.callers && s.callers[caller].HasRecord? {
      var c := s.callers[caller];
      assert CallerValid(w, s, caller, c);
      ValidMoves(w, s, caller, Ended);
      var ended, t := SetCaller(s, caller, Ended), NextAnswered(w, s, caller);
      if t != ended {
        AnswerIsValid(w, s, caller);
        ValidAnswers(w, ended, caller, t.answers[caller]);
      }
    }
  }

  lemma AnswerIsValid(w: KeyWrapper, s: State, caller: nat)
    requires BirthsValid(s.births) && WrapperLaws(w) && caller in s.callers && s.callers[caller].HasRecord?
    requires CallerValid(w, s, caller, s.callers[caller])
    requires var c := s.callers[caller];
             Release(w, c.key, c.held.record, NeedsCaptcha(c.seen.record)).Granted?
    ensures var c := s.callers[caller];
            var r := Release(w, c.key, c.held.record, NeedsCaptcha(c.seen.record));
            AnswerValid(w, SetCaller(s, caller, Ended), caller, Answer(c.key, c.seen, c.held, r.captchaKey))
  {
    hide RecordOf, IsValidInput, NeedsCaptcha, BurnAfterRead, Release, WrapperLaws;
    var c := s.callers[caller];
    var birth := s.births[c.held.incarnation];
    ReleasedKeyIsSupplied(w, c.key, birth.input, birth.nonce, NeedsCaptcha(c.seen.record));
  }

  lemma ValidAnswers(w: KeyWrapper, s: State, caller: nat, a: Answer)
    requires Valid(w, s) && AnswerValid(w, s, caller, a)
    ensures Valid(w, s.(answers := s.answers[caller := a]))
  {
    hide RecordOf, IsValidInput, NeedsCaptcha, BurnAfterRead, IsBorn;
    var t := s.(answers := s.answers[caller := a]);
    forall x | x in t.callers
      ensures CallerValid(w, t, x, t.callers[x])
    {
      assert CallerValid(w, s, x, s.callers[x]);
    }
    forall x | x in t.answers
      ensures AnswerValid(w, t, x, t.answers[x])
    {
      assert x != caller ==> AnswerValid(w, s, x, s.answers[x]);
    }
  }

  lemma StepKeepsValid(w: KeyWrapper, s: State, e: Event)
    requires Valid(w, s) && WrapperLaws(w)
    ensures Valid(w, Next(w, s, e))
  {
    match e
    case Create(key, input, nonce) => CreateKeepsValid(w, s, key, input, nonce);
    case PlainGet(key, now) => PlainGetKeepsValid(w, s, key, now);
    case Get(caller, key, now, token, cancelled) => GetKeepsValid(w, s, caller, key, now, token, cancelled);
    case Check(caller, configured, verified) => CheckKeepsValid(w, s, caller, configured, verified);
    case Consume(caller, cancelled) => ConsumeKeepsValid(w, s, caller, cancelled);
    case Answered(caller) => AnsweredKeepsValid(w, s, caller);
    case Cleanup(now, gone) => CleanupKeepsValid(w, s, now, gone);
  }

  lemma GetKeepsValid(w: KeyWrapper, s: State, caller: nat, key: Key, now: Time, token: string, cancelled: bool)
    requires Valid(w, s)
    ensures Valid(w, NextGet(s, caller, key, now, token, cancelled))
  {
    hide RecordOf, IsValidInput, NeedsCaptcha, BurnAfterRead, IsBorn;
    if caller !in s.callers {
      ValidMoves(w, s, caller, NextGet(s, caller, key, now, token, cancelled).callers[caller]);
    }
  }

  lemma PlainGetKeepsValid(w: KeyWrapper, s: State, key: Key, now: Time)
    requires Valid(w, s)
    ensures Valid(w, NextPlainGet(s, key, now))
  {
    hide RecordOf, IsValidInput, NeedsCaptcha, BurnAfterRead, IsBorn;
    var t := NextPlainGet(s, key, now);
    assert ShownValid(t.shown);
    ValidExtends(w, s, t.(shown := s.shown));
    SameButShown(w, t.(shown := s.shown), t);
  }

  lemma SameButShown(w: KeyWrapper, s: State, t: State)
    requires Valid(w, s) && t == s.(shown := t.shown) && ShownValid(t.shown)
    ensures Valid(w, t)
  {
    hide RecordOf, IsValidInput, NeedsCaptcha, BurnAfterRead, IsBorn, ShownValid;
    forall c | c in t.callers
      ensures CallerValid(w, t, c, t.callers[c])
    {
      assert CallerValid(w, s, c, s.callers[c]);
    }
    forall c | c in t.answers
      ensures AnswerValid(w, t, c, t.answers[c])
    {
      assert AnswerValid(w, s, c, s.answers[c]);
    }
  }

  lemma CleanupKeepsValid(w: KeyWrapper, s: State, now: Time, gone: set<Key>)
    requires Valid(w, s)
    ensures Valid(w, NextCleanup(s, now, gone))
  {
    hide RecordOf, IsValidInput, NeedsCaptcha, BurnAfterRead, IsBorn;
    ValidExtends(w, s, NextCleanup(s, now, gone));
  }

  lemma {:induction false} RunIsValid(w: KeyWrapper, events: seq<Event>)
    requires WrapperLaws(w)
    ensures Valid(w, Run(w, events))
  {
    if events != [] {
      RunIsValid(w, events[..|events| - 1]);
      StepKeepsValid(w, Run(w, events[..|events| - 1]), events[|events| - 1]);
    }
  }

  // ----- Safety over whole runs -----

  /** An incarnation with the burn flag is released by at most one access, and is then no longer stored. */
  lemma BurnedAtMostOnce(w: KeyWrapper, events: seq<Event>, c1: nat, c2: nat)
    requires WrapperLaws(w)
    requires var s := Run(w, events);
             && c1 in s.answers && c2 in s.answers && BurnAfterRead(s.answers[c1].released.record)
             && s.answers[c1].released.incarnation == s.answers[c2].released.incarnation
    ensures c1 == c2
    ensures var s := Run(w, events);
            forall k :: k in s.records ==> s.records[k].incarnation != s.answers[c1].released.incarnation
  {
    hide RecordOf, NeedsCaptcha, BurnAfterRead, Run;
    RunIsValid(w, events);
    var s := Run(w, events);
    assert AnswerValid(w, s, c1, s.answers[c1]) && AnswerValid(w, s, c2, s.answers[c2]);
  }

  /** A plain read never returns a record with the burn or the CAPTCHA flag. */
  lemma {:induction false} PlainReadsAreUnprotected(w: KeyWrapper, events: seq<Event>, stored: Stored)
    requires WrapperLaws(w) && stored in Run(w, events).shown
    ensures !BurnAfterRead(stored.record) && !NeedsCaptcha(stored.record)
  {
    RunIsValid(w, events);
  }

  /** A plain read returns a live record exactly if neither bit is set, and never changes the store. */
  lemma PlainReadIs(w: KeyWrapper, s: State, key: Key, now: Time)
    ensures var t := Next(w, s, PlainGet(key, now));
            && t.records == s.records
            && t.shown == s.shown + if Live(s, key, now) && s.records[key].record.featureFlags % 2 == 0
                                       && s.records[key].record.featureFlags / 4 % 2 == 0
                                    then [s.records[key]] else []
  {
    assert s.shown + [] == s.shown;
    if key in s.records {
      FlagsOfRecord(s.records[key].record);
    }
  }

  /** The provider has accepted this caller's token. */
  ghost predicate HasPassed(events: seq<Event>, caller: nat) {
    exists i :: 0 <= i < |events| && events[i] == Check(caller, true, true)
  }

  /** The record this caller has checked, if it has checked one. */
  ghost predicate Checked(c: Caller, seen: Stored) {
    (c.HasChecked? || c.HasRecord?) && c.seen == seen
  }

  /** Only its own Check lets a caller past the checks, and a record with CAPTCHA only if its token was accepted. */
  lemma CheckLetsThrough(w: KeyWrapper, s: State, e: Event, caller: nat, seen: Stored)
    requires caller in Next(w, s, e).callers && Checked(Next(w, s, e).callers[caller], seen)
    ensures || (caller in s.callers && Checked(s.callers[caller], seen))
            || (seen.record.featureFlags % 2 == 1 ==> e == Check(caller, true, true))
  {
    hide RecordOf, IsValidInput, BurnAfterRead, NeedsCaptcha, Live, Release;
    FlagsOfRecord(seen.record);
  }

  lemma PassedStays(events: seq<Event>, e: Event, caller: nat)
    ensures HasPassed(events, caller) ==> HasPassed(events + [e], caller)
    ensures e == Check(caller, true, true) ==> HasPassed(events + [e], caller)
  {
    var all := events + [e];
    assert all[|events|] == e;
    assert forall i :: 0 <= i < |events| ==> all[i] == events[i];
  }

  /** A caller that has checked a record with CAPTCHA, and one that was answered after seeing one, has passed it. */
  lemma {:induction false} CaptchaComesFirst(w: KeyWrapper, events: seq<Event>, caller: nat, seen: Stored)
    requires seen.record.featureFlags % 2 == 1
    ensures var s := Run(w, events);
            && (caller in s.callers && Checked(s.callers[caller], seen) ==> HasPassed(events, caller))
            && (caller in s.answers && s.answers[caller].seen == seen ==> HasPassed(events, caller))
  {
    hide Next, Checked, HasPassed;
    if events != [] {
      var before, e := events[..|events| - 1], events[|events| - 1];
      assert before + [e] == events;
      var s := Run(w, before);
      CaptchaComesFirst(w, before, caller, seen);
      PassedStays(before, e, caller);
      if caller in Next(w, s, e).callers && Checked(Next(w, s, e).callers[caller], seen) {
        CheckLetsThrough(w, s, e, caller, seen);
      }
      AnswersFromRecords(w, s, e, caller, seen);
    }
  }

  lemma AnswersFromRecords(w: KeyWrapper, s: State, e: Event, caller: nat, seen: Stored)
    ensures caller in Next(w, s, e).answers && Next(w, s, e).answers[caller].seen == seen ==>
      || (caller in s.answers && s.answers[caller].seen == seen)
      || (caller in s.callers && Checked(s.callers[caller], seen))
  {
    hide RecordOf, IsValidInput, BurnAfterRead, NeedsCaptcha, Live, Release, Objection;
  }

  /** A record is taken only by a caller that has passed the CAPTCHA of what it saw, and nothing else takes one. */
  lemma TakenAfterCaptcha(w: KeyWrapper, events: seq<Event>, e: Event, incarnation: nat)
    requires incarnation in Run(w, events + [e]).takers
    requires incarnation in Run(w, events).takers ==>
               Run(w, events).takers[incarnation] != Run(w, events + [e]).takers[incarnation]
    ensures var s, caller := Run(w, events), Run(w, events + [e]).takers[incarnation];
            && e == Consume(caller, false) && caller in s.callers && s.callers[caller].HasChecked?
            && (s.callers[caller].seen.record.featureFlags % 2 == 1 ==> HasPassed(events, caller))
  {
    hide Run, HasPassed;
    RunSnoc(w, events, e);
    var s := Run(w, events);
    TakenByConsume(w, s, e, incarnation);
    var caller := Next(w, s, e).takers[incarnation];
    var seen := s.callers[caller].seen;
    if seen.record.featureFlags % 2 == 1 {
      CaptchaComesFirst(w, events, caller, seen);
    }
  }

  lemma TakenByConsume(w: KeyWrapper, s: State, e: Event, incarnation: nat)
    requires incarnation in Next(w, s, e).takers
    requires incarnation in s.takers ==> s.takers[incarnation] != Next(w, s, e).takers[incarnation]
    ensures var caller := Next(w, s, e).takers[incarnation];
            e == Consume(caller, false) && caller in s.callers && s.callers[caller].HasChecked?
  {
    hide RecordOf, IsValidInput, BurnAfterRead, NeedsCaptcha, Live, Release, Objection;
  }

  /**
   * What an access releases was created under its key, and a released CAPTCHA key was supplied for that very
   * incarnation. The key comes with the record unless Get saw a record without CAPTCHA and Consume handed out one with
   * it, which takes a re-creation of the storage key in between.
   */
  lemma ReleasedAsCreated(w: KeyWrapper, events: seq<Event>, caller: nat)
    requires WrapperLaws(w) && caller in Run(w, events).answers
    ensures var s := Run(w, events); IsBorn(w, s.births, s.answers[caller].key, s.answers[caller].released)
    ensures var s := Run(w, events);
            var a := s.answers[caller];
            var supplied := s.births[a.released.incarnation].input.captchaKey;
            && (a.captchaKey.Some? ==> a.captchaKey == supplied)
            && (a.captchaKey == supplied <==> NeedsCaptcha(a.seen.record) || !NeedsCaptcha(a.released.record))
            && (a.released.incarnation == a.seen.incarnation ==> a.released == a.seen && a.captchaKey == supplied)
  {
    RunIsValid(w, events);
    var s := Run(w, events);
    var a := s.answers[caller];
    assert AnswerValid(w, s, caller, a);
    assert BirthsValid(s.births);
  }

  /**
   * An access that holds its record answers with it unless Get saw a record with CAPTCHA and Consume handed out one
   * without: then there is no key to unwrap, and the consumed record is neither stored nor answered.
   */
  lemma AnsweredUnlessKeyIsMissing(w: KeyWrapper, events: seq<Event>, caller: nat)
    requires WrapperLaws(w) && caller in Run(w, events).callers && Run(w, events).callers[caller].HasRecord?
    ensures var s, t := Run(w, events), Run(w, events + [Answered(caller)]);
            var c := s.callers[caller];
            && t.callers[caller] == Ended && t.records == s.records
            && (caller in t.answers <==> (NeedsCaptcha(c.seen.record) ==> NeedsCaptcha(c.held.record)))
            && (BurnAfterRead(c.held.record) ==> forall k :: k in t.records ==> t.records[k] != c.held)
  {
    hide RecordOf, NeedsCaptcha, BurnAfterRead, Release, WrapperLaws, Run;
    RunIsValid(w, events);
    RunSnoc(w, events, Answered(caller));
    var s := Run(w, events);
    var c := s.callers[caller];
    assert CallerValid(w, s, caller, c);
    var birth := s.births[c.held.incarnation];
    ReleasedKeyIsSupplied(w, c.key, birth.input, birth.nonce, NeedsCaptcha(c.seen.record));
    assert caller in s.answers ==> AnswerValid(w, s, caller, s.answers[caller]);
  }

  /** Input for a record that is burned when it is read and does not expire. */
  predicate IsBurnInput(input: CreateInput) {
    && IsValidInput(input) && input.metadata != [] && input.envelope != [] && input.expiresAt == None
    && HasFlag(input.featureFlags, BURN_FLAG)
  }

  lemma BurnRecord(w: KeyWrapper, key: Key, input: CreateInput, nonce: Bytes)
    requires WrapperLaws(w) && IsBurnInput(input) && |nonce| == GCM_NONCE_LENGTH
    ensures var record := RecordOf(w, key, input, nonce);
            && IsValidInput(input) && IsStorable(record) && BurnAfterRead(record) && record.expiresAt == None
            && NeedsCaptcha(record) == input.captchaKey.Some?
            && Objection(record, "", true, _ => true) == None
  {
  }

  /** Appends a step to a run whose state is known. */
  lemma Extend(w: KeyWrapper, run: seq<Event>, s: State, e: Event) returns (longer: seq<Event>)
    requires Run(w, run) == s
    ensures Run(w, longer) == Next(w, s, e)
  {
    RunSnoc(w, run, e);
    longer := run + [e];
  }

  /** One caller has checked a record when another one burns it. */
  lemma CheckedThenBurned(w: KeyWrapper, key: Key, first: CreateInput, nonce: Bytes) returns (run: seq<Event>, s: State)
    requires WrapperLaws(w) && IsBurnInput(first) && |nonce| == GCM_NONCE_LENGTH
    ensures Run(w, run) == s && s.records == map[] && |s.births| == 1 && s.answers == map[] && s.takers == map[0 := 2]
    ensures 1 in s.callers
         && s.callers[1] == HasChecked(key, 0, Stored(RecordOf(w, key, first, nonce), 0))
  {
    hide Run, RecordOf, IsStorable, BurnAfterRead, Objection, IsValidInput, HasFlag, WrapperLaws;
    RunOfNone(w);
    var stored := Stored(RecordOf(w, key, first, nonce), 0);
    BurnRecord(w, key, first, nonce);
    run, s := [], START;
    run := Extend(w, run, s, Create(key, first, nonce));
    s := s.(records := map[key := stored], births := [Birth(key, first, nonce)]);
    run := Extend(w, run, s, Get(1, key, 0, "", false));
    s := s.(callers := map[1 := HasGot(key, 0, "", stored)]);
    run := Extend(w, run, s, Check(1, true, true));
    s := s.(callers := map[1 := HasChecked(key, 0, stored)]);
    run := Extend(w, run, s, Get(2, key, 0, "", false));
    s := s.(callers := s.callers[2 := HasGot(key, 0, "", stored)]);
    run := Extend(w, run, s, Check(2, true, true));
    s := s.(callers := s.callers[2 := HasChecked(key, 0, stored)]);
    run := Extend(w, run, s, Consume(2, false));
    s := Next(w, s, Consume(2, false));
  }

  /** The storage key is re-created before the first caller consumes, which now holds what it has not checked. */
  lemma RecreatedBetween(w: KeyWrapper, key: Key, first: CreateInput, second: CreateInput, nonce: Bytes)
    returns (run: seq<Event>, s: State)
    requires WrapperLaws(w) && IsBurnInput(first) && IsBurnInput(second) && |nonce| == GCM_NONCE_LENGTH
    ensures Run(w, run) == s && s.records == map[] && s.answers == map[] && 1 in s.takers && 1 in s.callers
    ensures s.callers[1] == HasRecord(key, Stored(RecordOf(w, key, first, nonce), 0),
                                      Stored(RecordOf(w, key, second, nonce), 1))
  {
    hide Run, RecordOf, IsStorable, BurnAfterRead, IsValidInput, HasFlag, WrapperLaws;
    run, s := CheckedThenBurned(w, key, first, nonce);
    BurnRecord(w, key, second, nonce);
    run := Extend(w, run, s, Create(key, second, nonce));
    s := Next(w, s, Create(key, second, nonce));
    assert s.records == map[key := Stored(RecordOf(w, key, second, nonce), 1)];
    run := Extend(w, run, s, Consume(1, false));
    s := Next(w, s, Consume(1, false));
  }

  /** A burn record, with a CAPTCHA key or without one. */
  function BurnInput(captcha: bool): (input: CreateInput)
    ensures IsBurnInput(input) && input.captchaKey.Some? == captcha
  {
    if captcha then CreateInput([1], [1], [], "", 5, None, Some(seq(32, _ => 1)))
    else CreateInput([1], [1], [], "", 4, None, None)
  }

  /** Re-created with CAPTCHA, a record is released without its key. */
  lemma RecreationLosesKey(w: KeyWrapper) returns (events: seq<Event>)
    requires WrapperLaws(w)
    ensures 1 in Run(w, events).answers
    ensures var a := Run(w, events).answers[1];
            NeedsCaptcha(a.released.record) && a.captchaKey == None && a.seen.incarnation != a.released.incarnation
  {
    hide Run, RecordOf, NeedsCaptcha, BurnInput, IsBurnInput;
    var key: Key, nonce: Bytes := seq(16, _ => 0), seq(12, _ => 2);
    var run, s := RecreatedBetween(w, key, BurnInput(false), BurnInput(true), nonce);
    BurnRecord(w, key, BurnInput(false), nonce);
    BurnRecord(w, key, BurnInput(true), nonce);
    events := Extend(w, run, s, Answered(1));
  }

  /** Re-created without CAPTCHA, a record is consumed and lost: no caller has it and the store is empty. */
  lemma RecreationLosesRecord(w: KeyWrapper) returns (events: seq<Event>)
    requires WrapperLaws(w)
    ensures var s := Run(w, events);
            && 1 in s.takers && 1 in s.callers && s.callers[1] == Ended && 1 !in s.answers && s.records == map[]
  {
    hide Run, NeedsCaptcha, RecordOf, Release, BurnInput, IsBurnInput;
    var key: Key, nonce: Bytes := seq(16, _ => 0), seq(12, _ => 2);
    var run, s := RecreatedBetween(w, key, BurnInput(true), BurnInput(false), nonce);
    BurnRecord(w, key, BurnInput(true), nonce);
    BurnRecord(w, key, BurnInput(false), nonce);
    ReleasedKeyIsSupplied(w, key, BurnInput(false), nonce, true);
    events := Extend(w, run, s, Answered(1));
  }

  lemma RunSnoc(w: KeyWrapper, events: seq<Event>, e: Event)
    ensures Run(w, events + [e]) == Next(w, Run(w, events), e)
  {
    assert (events + [e])[..|events|] == events;
  }

  lemma RunOfNone(w: KeyWrapper)
    ensures Run(w, []) == START
  {
  }

  /** The only step of an access that changes the store is a Consume that succeeds, and it removes only the
      record it hands out; so an access that fails before it leaves the store unchanged. */
  lemma OnlyConsumeChangesStore(w: KeyWrapper, s: State, e: Event)
    requires e.Get? || e.Check? || e.Consume? || e.Answered? || e.PlainGet?
    requires Next(w, s, e).records != s.records
    ensures e.Consume? && e.caller in s.callers && s.callers[e.caller].HasChecked?
    ensures var c, t := s.callers[e.caller], Next(w, s, e);
            && c.key in s.records && t.records == s.records - {c.key}
            && t.callers[e.caller] == HasRecord(c.key, c.seen, s.records[c.key])
  {
    hide RecordOf, Objection, Release;
  }

  /** No create changes a record that is stored. */
  lemma CreateKeepsStored(w: KeyWrapper, s: State, key: Key, input: CreateInput, nonce: Bytes, k: Key)
    requires k in s.records
    ensures var t := NextCreate(w, s, key, input, nonce); k in t.records && t.records[k] == s.records[k]
  {
    hide RecordOf;
  }

  /** The steps that change the store are the repository's operations. */
  lemma StepsAreRepositoryOperations(w: KeyWrapper, s: State, key: Key, input: CreateInput, nonce: Bytes, caller: nat)
    ensures IsValidInput(input) && |nonce| == GCM_NONCE_LENGTH ==>
      Contents(NextCreate(w, s, key, input, nonce)) == AfterCreate(Contents(s), key, RecordOf(w, key, input, nonce)).0
    ensures caller in s.callers && s.callers[caller].HasChecked? ==>
      var c, t := s.callers[caller], NextConsume(s, caller, false);
      if IsLive(Contents(s), c.key, c.now) then
        Contents(t) == Contents(s) - {c.key} && t.callers[caller].HasRecord?
        && t.callers[caller].held.record == Contents(s)[c.key]
      else Contents(t) == Contents(s) && t.callers[caller] == Ended
  {
    hide RecordOf, IsStorable, IsValidInput;
  }

  /** What an access has come to: still under way, refused, or answered. */
  function ResultOf(s: State, caller: nat): Option<AccessResult> {
    if caller in s.answers then Some(Granted(s.answers[caller].released.record, s.answers[caller].captchaKey))
    else None
  }

  /** The steps of one access after Get. */
  function Completed(w: KeyWrapper, t: State, caller: nat, cancelled: bool, configured: bool, verified: bool): State {
    NextAnswered(w, NextConsume(NextCheck(t, caller, configured, verified), caller, cancelled), caller)
  }

  /** The steps of one access, with anything in between, are the access itself: it leaves the store and grants what
      `Access` does when it finds the store of `s` at Get and the store of `t` before Consume. */
  lemma StepsAreAccess(w: KeyWrapper, s: State, t: State, caller: nat, cancelled: Cancellation, key: Key, now: Time,
                       token: string, configured: bool, verify: string -> bool)
    requires caller !in s.callers && caller !in t.answers && caller in t.callers
    requires t.callers[caller] == NextGet(s, caller, key, now, token, cancelled.atGet).callers[caller]
    ensures var done := Completed(w, t, caller, cancelled.atConsume, configured, verify(token));
            var expected := AccessBetween(Contents(s), Contents(t), cancelled, key, now, token, configured, verify, w);
            && Contents(done) == expected.0
            && ResultOf(done, caller) == if expected.1.Granted? then Some(expected.1) else None
  {
    hide Release, HasFlag, NeedsCaptcha, BurnAfterRead, Contents, NextCheck, NextConsume, NextAnswered;
    LiveIsLive(s, key, now);
    LiveIsLive(t, key, now);
    var checked := NextCheck(t, caller, configured, verify(token));
    var consumed := NextConsume(checked, caller, cancelled.atConsume);
    if !cancelled.atGet && Live(s, key, now) {
      CheckIsObjection(t, caller, configured, verify);
      SameContents(t, checked);
      LiveIsLive(checked, key, now);
    } else {
      EndedStays(w, t, caller, cancelled.atConsume, configured, verify(token));
    }
    ConsumeStep(checked, caller, cancelled.atConsume);
    AnsweredStep(w, consumed, caller);
  }

  lemma LiveIsLive(s: State, key: Key, now: Time)
    ensures Live(s, key, now) == IsLive(Contents(s), key, now)
    ensures key in s.records ==> key in Contents(s) && Contents(s)[key] == s.records[key].record
  {
  }

  lemma SameContents(s: State, t: State)
    requires s.records == t.records
    ensures Contents(s) == Contents(t)
  {
  }

  lemma EndedStays(w: KeyWrapper, t: State, caller: nat, cancelled: bool, configured: bool, verified: bool)
    requires caller in t.callers && t.callers[caller] == Ended
    ensures NextCheck(t, caller, configured, verified) == t && NextConsume(t, caller, cancelled) == t
    ensures NextAnswered(w, t, caller) == t
  {
  }

  lemma ConsumeStep(s: State, caller: nat, cancelled: bool)
    requires caller in s.callers
    ensures var c, t := s.callers[caller], NextConsume(s, caller, cancelled);
            var consumes := c.HasChecked? && !cancelled && Live(s, c.key, c.now);
            && t.answers == s.answers && caller in t.callers
            && (!c.HasChecked? ==> t == s)
            && (consumes ==>
                  && t.callers[caller] == HasRecord(c.key, c.seen, s.records[c.key])
                  && Contents(t) == Contents(s) - {c.key})
            && (c.HasChecked? && !consumes ==> t.callers[caller] == Ended && Contents(t) == Contents(s))
  {
    var t := NextConsume(s, caller, cancelled);
    assert t.records == s.records ==> Contents(t) == Contents(s);
  }

  lemma AnsweredStep(w: KeyWrapper, s: State, caller: nat)
    requires caller in s.callers && caller !in s.answers
    ensures var c, t := s.callers[caller], NextAnswered(w, s, caller);
            && Contents(t) == Contents(s)
            && (!c.HasRecord? ==> t == s)
            && (c.HasRecord? ==>
                  var r := Release(w, c.key, c.held.record, NeedsCaptcha(c.seen.record));
                  ResultOf(t, caller) == if r.Granted? then Some(r) else None)
  {
    var c := s.callers[caller];
    if c.HasRecord? {
      ReleaseGrants(w, c.key, c.held.record, NeedsCaptcha(c.seen.record));
    }
    hide Release, NeedsCaptcha;
    SameContents(s, NextAnswered(w, s, caller));
  }

  /** What is granted is the record that was held. */
  lemma ReleaseGrants(w: KeyWrapper, key: Key, record: Record, captcha: bool)
    ensures var r := Release(w, key, record, captcha); r.Granted? ==> r.record == record
  {
  }

  lemma CheckIsObjection(t: State, caller: nat, configured: bool, verify: string -> bool)
    requires caller in t.callers && t.callers[caller].HasGot?
    ensures var c := t.callers[caller];
            var checked := NextCheck(t, caller, configured, verify(c.token));
            && checked.records == t.records && checked.answers == t.answers && caller in checked.callers
            && checked.callers[caller] ==
                 if Objection(c.seen.record, c.token, configured, verify).Some? then Ended
                 else if BurnAfterRead(c.seen.record) then HasChecked(c.key, c.now, c.seen)
                 else HasRecord(c.key, c.seen, c.seen)
  {
    hide NeedsCaptcha, BurnAfterRead;
  }
}
