/** The in-memory repository, and the loop that removes what has expired. */
module Repository {
  import opened Common

  type Key = k: Bytes | |k| == 16 witness seq(16, _ => 0)

  /** Instants are nanoseconds since the epoch. */
  type Time = int

  /** A record; no expiry means that it is kept until it is consumed. */
  datatype Record = Record(
    metadata: Bytes, envelope: Bytes, requestHash: Bytes, etag: string, featureFlags: Uint32,
    expiresAt: Option<Time>, captchaKeyNonce: Bytes, captchaKeyCiphertext: Bytes)

  type Records = map<Key, Record>

  datatype StoreError = Cancelled | NotFound | Conflict | Invalid

  datatype Outcome<+T> = Done(value: T) | Failed(error: StoreError)

  datatype CreateResult = CreateResult(expiresAt: Option<Time>, replayed: bool)

  const GCM_NONCE_LENGTH := 12
  const DEFAULT_BATCH: nat := 500

  function HasExpired(now: Time, expiresAt: Option<Time>): bool {
    expiresAt.Some? && now >= expiresAt.value
  }

  predicate IsLive(records: Records, key: Key, now: Time) {
    key in records && !HasExpired(now, records[key].expiresAt)
  }

  /** What `Create` refuses before it looks at the store. */
  predicate IsStorable(record: Record) {
    && record.metadata != [] && record.envelope != []
    && (record.captchaKeyNonce != [] || record.captchaKeyCiphertext != []
        ==> |record.captchaKeyNonce| == GCM_NONCE_LENGTH && record.captchaKeyCiphertext != [])
  }

  /** The store after a create, and its answer. */
  function AfterCreate(records: Records, key: Key, record: Record): (Records, Outcome<CreateResult>) {
    if !IsStorable(record) then (records, Failed(Invalid))
    else if key !in records then (records[key := record], Done(CreateResult(record.expiresAt, false)))
    else if records[key].requestHash == record.requestHash then
      (records, Done(CreateResult(records[key].expiresAt, true)))
    else (records, Failed(Conflict))
  }

  ghost function ExpiredKeys(records: Records, now: Time): set<Key> {
    set k | k in records && HasExpired(now, records[k].expiresAt)
  }

  /** A record lives up to its expiry and not at it; one without expiry for good. */
  lemma ExpiredIff(records: Records, key: Key, now: Time)
    requires key in records
    ensures IsLive(records, key, now) <==> records[key].expiresAt.None? || now < records[key].expiresAt.value
    ensures key in ExpiredKeys(records, now) <==> !IsLive(records, key, now)
  {
  }

  function Min(a: nat, b: nat): nat {
    if a < b then a else b
  }

  /** Up to `batch` expired records are gone, none of which expired later than one that stays. */
  ghost predicate RemovesOldest(before: Records, after: Records, now: Time, batch: nat, count: nat) {
    var expired, gone := ExpiredKeys(before, now), before.Keys - after.Keys;
    && gone <= expired && after == before - gone
    && count == |gone| == Min(batch, |expired|)
    && forall g, k :: g in gone && k in expired && k !in gone
         ==> before[g].expiresAt.value <= before[k].expiresAt.value
  }

  datatype ExpiredRecord = ExpiredRecord(key: Key, expiresAt: Time)

  ghost function KeysOf(s: seq<ExpiredRecord>): set<Key> {
    set e | e in s :: e.key
  }

  /** No key twice. */
  ghost predicate DistinctKeys(s: seq<ExpiredRecord>) {
    forall i, j :: 0 <= i < j < |s| ==> s[i].key != s[j].key
  }

  ghost predicate Sorted(s: seq<ExpiredRecord>) {
    forall i, j :: 0 <= i < j < |s| ==> s[i].expiresAt <= s[j].expiresAt
  }

  lemma {:induction false} DistinctKeysCount(s: seq<ExpiredRecord>)
    requires DistinctKeys(s)
    ensures |KeysOf(s)| == |s|
  {
    if s != [] {
      var last := |s| - 1;
      DistinctKeysCount(s[..last]);
      assert s == s[..last] + [s[last]];
      assert KeysOf(s) == KeysOf(s[..last]) + {s[last].key};
      assert s[last].key !in KeysOf(s[..last]);
    }
  }

  /** sort.Slice by expiry. */
  method SortByExpiry(s: seq<ExpiredRecord>) returns (sorted: seq<ExpiredRecord>)
    ensures Sorted(sorted) && multiset(sorted) == multiset(s)
  {
    sorted := [];
    for i := 0 to |s|
      invariant Sorted(sorted) && multiset(sorted) == multiset(s[..i])
    {
      sorted := Insert(sorted, s[i]);
      assert s[..i + 1] == s[..i] + [s[i]];
    }
    assert s[..|s|] == s;
  }

  method Insert(s: seq<ExpiredRecord>, e: ExpiredRecord) returns (r: seq<ExpiredRecord>)
    requires Sorted(s)
    ensures Sorted(r) && multiset(r) == multiset(s) + multiset{e}
  {
    var i := 0;
    while i < |s| && s[i].expiresAt <= e.expiresAt
      invariant i <= |s| && forall k :: 0 <= k < i ==> s[k].expiresAt <= e.expiresAt
    {
      i := i + 1;
    }
    hide Sorted;
    InsertedIsSorted(s, i, e);
    r := s[..i] + [e] + s[i..];
    assert multiset(s) == multiset(s[..i]) + multiset(s[i..]) by {
      assert s == s[..i] + s[i..];
    }
  }

  lemma InsertedIsSorted(s: seq<ExpiredRecord>, i: nat, e: ExpiredRecord)
    requires Sorted(s) && i <= |s| && (i < |s| ==> e.expiresAt < s[i].expiresAt)
    requires forall k :: 0 <= k < i ==> s[k].expiresAt <= e.expiresAt
    ensures Sorted(s[..i] + [e] + s[i..])
  {
    var r := s[..i] + [e] + s[i..];
    forall j, k | 0 <= j < k < |r|
      ensures r[j].expiresAt <= r[k].expiresAt
    {
      assert r[j] == (if j < i then s[j] else if j == i then e else s[j - 1]);
      assert r[k] == (if k < i then s[k] else if k == i then e else s[k - 1]);
    }
  }

  /** What sorting does not change. */
  lemma PermutationFacts(a: seq<ExpiredRecord>, b: seq<ExpiredRecord>)
    requires multiset(a) == multiset(b)
    ensures |a| == |b| && KeysOf(a) == KeysOf(b)
    ensures forall e :: e in a <==> e in b
    ensures DistinctKeys(a) ==> DistinctKeys(b)
  {
    assert |multiset(a)| == |a| && |multiset(b)| == |b|;
    assert forall e :: e in a <==> e in multiset(a);
    assert forall e :: e in b <==> e in multiset(b);
    assert KeysOf(a) == KeysOf(b);
    if DistinctKeys(a) {
      DistinctKeysCount(a);
      forall i, j | 0 <= i < j < |b|
        ensures b[i].key != b[j].key
      {
        if b[i].key == b[j].key {
          TooFewKeys(b, i, j);
        }
      }
    }
  }

  lemma {:induction false} KeysCount(s: seq<ExpiredRecord>)
    ensures |KeysOf(s)| <= |s|
  {
    if s != [] {
      var last := |s| - 1;
      KeysCount(s[..last]);
      assert s == s[..last] + [s[last]];
      assert KeysOf(s) == KeysOf(s[..last]) + {s[last].key};
    }
  }

  lemma TooFewKeys(s: seq<ExpiredRecord>, i: nat, j: nat)
    requires i < j < |s| && s[i].key == s[j].key
    ensures |KeysOf(s)| < |s|
  {
    var rest := s[..j] + s[j + 1..];
    assert s == s[..j] + [s[j]] + s[j + 1..];
    assert rest[i] == s[i];
    assert forall e :: e in s ==> e in rest || e == s[j];
    assert KeysOf(s) == KeysOf(rest);
    KeysCount(rest);
  }

  /** Each entry is an expired record of the store. */
  ghost predicate AreExpired(s: seq<ExpiredRecord>, records: Records, now: Time) {
    forall i :: 0 <= i < |s| ==>
      s[i].key in records && records[s[i].key].expiresAt == Some(s[i].expiresAt) && now >= s[i].expiresAt
  }

  lemma PrefixKeys(s: seq<ExpiredRecord>, n: nat)
    requires n <= |s| && DistinctKeys(s)
    ensures KeysOf(s[..n]) <= KeysOf(s) && |KeysOf(s[..n])| == n && |KeysOf(s)| == |s|
    ensures forall i :: 0 <= i < |s| ==> s[i].key in KeysOf(s)
    ensures forall i :: 0 <= i < n ==> s[i].key in KeysOf(s[..n])
  {
    DistinctKeysCount(s);
    DistinctKeysCount(s[..n]);
    assert forall i :: 0 <= i < n ==> s[..n][i] == s[i];
    assert forall e :: e in s[..n] ==> e in s;
  }

  /** A key in the set of keys has its entry. */
  lemma EntryOf(s: seq<ExpiredRecord>, key: Key) returns (i: nat)
    requires key in KeysOf(s)
    ensures i < |s| && s[i].key == key
  {
    var e :| e in s && e.key == key;
    i :| 0 <= i < |s| && s[i] == e;
  }

  lemma PrefixIsEarlier(s: seq<ExpiredRecord>, n: nat, g: Key, k: Key)
    requires n <= |s| && Sorted(s) && DistinctKeys(s)
    requires g in KeysOf(s[..n]) && k in KeysOf(s) && k !in KeysOf(s[..n])
    ensures exists i, j :: 0 <= i < |s| && 0 <= j < |s| && s[i].key == g && s[j].key == k
                           && s[i].expiresAt <= s[j].expiresAt
  {
    var i := EntryOf(s[..n], g);
    var j := EntryOf(s, k);
    PrefixKeys(s, n);
    assert s[..n][i] == s[i];
    assert j >= n;
    assert s[i].expiresAt <= s[j].expiresAt;
  }

  /** Deleting a prefix of all expired records, sorted by expiry, removes the oldest. */
  lemma PrefixIsOldest(s: seq<ExpiredRecord>, n: nat, before: Records, after: Records, now: Time, batch: nat)
    requires Sorted(s) && DistinctKeys(s) && AreExpired(s, before, now)
    requires KeysOf(s) == ExpiredKeys(before, now)
    requires n == Min(batch, |s|) && after == before - KeysOf(s[..n])
    ensures RemovesOldest(before, after, now, batch, n)
  {
    hide Sorted, DistinctKeys, KeysOf;
    var gone := KeysOf(s[..n]);
    PrefixKeys(s, n);
    assert before.Keys - after.Keys == gone;
    forall g, k | g in gone && k in KeysOf(s) && k !in gone
      ensures before[g].expiresAt.value <= before[k].expiresAt.value
    {
      PrefixIsEarlier(s, n, g, k);
    }
  }

  lemma NoneCollected(records: Records, now: Time)
    ensures DistinctKeys([]) && AreExpired([], records, now) && KeysOf([]) == {}
  {
  }

  lemma CollectedOne(s: seq<ExpiredRecord>, e: ExpiredRecord, records: Records, now: Time)
    requires DistinctKeys(s) && AreExpired(s, records, now) && e.key !in KeysOf(s)
    requires e.key in records && records[e.key].expiresAt == Some(e.expiresAt) && now >= e.expiresAt
    ensures DistinctKeys(s + [e]) && AreExpired(s + [e], records, now)
    ensures KeysOf(s + [e]) == KeysOf(s) + {e.key}
  {
    forall i | 0 <= i < |s|
      ensures s[i].key != e.key
    {
      assert s[i] in s;
    }
  }

  class MemoryRepository {
    var records: Records

    constructor ()
      ensures records == map[]
    {
      records := map[];
    }

    method Create(cancelled: bool, key: Key, record: Record) returns (r: Outcome<CreateResult>)
      modifies this
      ensures cancelled ==> r == Failed(Cancelled) && records == old(records)
      ensures !cancelled ==> (records, r) == AfterCreate(old(records), key, record)
      ensures var before := old(records);
              var wrapped := record.captchaKeyNonce != [] || record.captchaKeyCiphertext != [];
              if cancelled then r == Failed(Cancelled) && records == before
              else if record.metadata == [] || record.envelope == [] then r == Failed(Invalid) && records == before
              else if wrapped && (|record.captchaKeyNonce| != 12 || record.captchaKeyCiphertext == []) then
                r == Failed(Invalid) && records == before
              else if key !in before then
                r == Done(CreateResult(record.expiresAt, false)) && records == before[key := record]
              else if before[key].requestHash != record.requestHash then r == Failed(Conflict) && records == before
              else r == Done(CreateResult(before[key].expiresAt, true)) && records == before
    {
      if cancelled {
        return Failed(Cancelled);
      }
      if |record.metadata| == 0 || |record.envelope| == 0 {
        return Failed(Invalid);
      }
      if |record.captchaKeyNonce| != 0 || |record.captchaKeyCiphertext| != 0 {
        if |record.captchaKeyNonce| != GCM_NONCE_LENGTH || |record.captchaKeyCiphertext| == 0 {
          return Failed(Invalid);
        }
      }
      if key in records {
        var existing := records[key];
        if existing.requestHash == record.requestHash {
          return Done(CreateResult(existing.expiresAt, true));
        }
        return Failed(Conflict);
      }
      records := records[key := record];
      return Done(CreateResult(record.expiresAt, false));
    }

    method Get(cancelled: bool, key: Key, now: Time) returns (r: Outcome<Record>)
      ensures r == if cancelled then Failed(Cancelled)
                   else if IsLive(records, key, now) then Done(records[key]) else Failed(NotFound)
      ensures r.Done? <==>
        !cancelled && key in records && (records[key].expiresAt.None? || now < records[key].expiresAt.value)
    {
      if cancelled {
        return Failed(Cancelled);
      }
      if key !in records || HasExpired(now, records[key].expiresAt) {
        return Failed(NotFound);
      }
      return Done(records[key]);
    }

    /** At most one caller gets a record this way. */
    method Consume(cancelled: bool, key: Key, now: Time) returns (r: Outcome<Record>)
      modifies this
      ensures !cancelled && IsLive(old(records), key, now)
        ==> r == Done(old(records)[key]) && records == old(records) - {key}
      ensures cancelled || !IsLive(old(records), key, now)
        ==> r == Failed(if cancelled then Cancelled else NotFound) && records == old(records)
      ensures r.Done? <==>
        var before := old(records);
        !cancelled && key in before && (before[key].expiresAt.None? || now < before[key].expiresAt.value)
    {
      if cancelled {
        return Failed(Cancelled);
      }
      if key !in records || HasExpired(now, records[key].expiresAt) {
        return Failed(NotFound);
      }
      var record := records[key];
      records := records - {key};
      return Done(record);
    }

    /** Every expired record, in no particular order. */
    method CollectExpired(now: Time) returns (expired: seq<ExpiredRecord>)
      ensures DistinctKeys(expired) && AreExpired(expired, records, now)
      ensures KeysOf(expired) == ExpiredKeys(records, now)
    {
      hide DistinctKeys, AreExpired, KeysOf;
      expired := [];
      NoneCollected(records, now);
      var left := records.Keys;
      while left != {}
        invariant left <= records.Keys && DistinctKeys(expired) && AreExpired(expired, records, now)
        invariant KeysOf(expired) == ExpiredKeys(records, now) - left
        decreases |left|
      {
        var key :| key in left;
        if HasExpired(now, records[key].expiresAt) {
          CollectedOne(expired, ExpiredRecord(key, records[key].expiresAt.value), records, now);
          expired := expired + [ExpiredRecord(key, records[key].expiresAt.value)];
        }
        left := left - {key};
      }
    }

    method DeleteKeys(expired: seq<ExpiredRecord>)
      modifies this
      ensures records == old(records) - KeysOf(expired)
    {
      ghost var before := records;
      var i := 0;
      while i < |expired|
        invariant i <= |expired| && records == before - KeysOf(expired[..i])
      {
        assert expired[..i + 1] == expired[..i] + [expired[i]];
        assert KeysOf(expired[..i + 1]) == KeysOf(expired[..i]) + {expired[i].key};
        records := records - {expired[i].key};
        i := i + 1;
      }
      assert expired[..|expired|] == expired;
    }

    method DeleteExpired(cancelled: bool, now: Time, batch: int) returns (r: Outcome<nat>)
      modifies this
      ensures cancelled ==> r == Failed(Cancelled) && records == old(records)
      ensures !cancelled && batch <= 0 ==> r == Failed(Invalid) && records == old(records)
      ensures !cancelled && batch > 0
        ==> r.Done? && RemovesOldest(old(records), records, now, batch, r.value)
    {
      hide Sorted, DistinctKeys, KeysOf, RemovesOldest, ExpiredKeys, AreExpired;
      if cancelled {
        return Failed(Cancelled);
      }
      if batch <= 0 {
        return Failed(Invalid);
      }
      var expired := CollectExpired(now);
      var sorted := SortByExpiry(expired);
      PermutationFacts(expired, sorted);
      StillExpired(expired, sorted, records, now);
      var n := if |sorted| > batch then batch else |sorted|;
      ghost var before := records;
      DeleteKeys(sorted[..n]);
      PrefixIsOldest(sorted, n, before, records, now, batch);
      return Done(n);
    }
  }

  lemma StillExpired(a: seq<ExpiredRecord>, b: seq<ExpiredRecord>, records: Records, now: Time)
    requires AreExpired(a, records, now) && forall e :: e in a <==> e in b
    ensures AreExpired(b, records, now)
  {
    assert forall i :: 0 <= i < |b| ==> b[i] in a;
  }

  // ----- The cleanup loop -----

  /** The store without what has expired. */
  ghost function Unexpired(records: Records, now: Time): Records {
    records - ExpiredKeys(records, now)
  }

  lemma PassFacts(before: Records, after: Records, now: Time, batch: nat, count: nat)
    requires RemovesOldest(before, after, now, batch, count)
    ensures ExpiredKeys(after, now) <= ExpiredKeys(before, now)
    ensures |ExpiredKeys(after, now)| == |ExpiredKeys(before, now)| - count
    ensures Unexpired(after, now) == Unexpired(before, now)
    ensures count == Min(batch, |ExpiredKeys(before, now)|)
  {
    hide ExpiredKeys;
    var expired, gone := ExpiredKeys(before, now), before.Keys - after.Keys;
    ExpiredWithout(before, gone, now);
    RemoveInTwoSteps(before, gone, expired);
  }

  lemma RemoveInTwoSteps(records: Records, first: set<Key>, all: set<Key>)
    requires first <= all
    ensures (records - first) - (all - first) == records - all
    ensures |all - first| == |all| - |first|
  {
    assert all == first + (all - first);
  }

  lemma ExpiredWithout(records: Records, gone: set<Key>, now: Time)
    ensures ExpiredKeys(records - gone, now) == ExpiredKeys(records, now) - gone
  {
  }

  lemma NothingExpired(records: Records, now: Time)
    requires |ExpiredKeys(records, now)| == 0
    ensures Unexpired(records, now) == records
  {
  }

  lemma QuotientIs(n: nat, d: nat, q: nat, r: nat)
    requires d > 0 && n == q * d + r && r < d
    ensures n / d == q
  {
    var p := n / d;
    assert n == p * d + n % d;
    assert (q - p) * d == q * d - p * d;
    MultipleAtLeast(q - p, d);
  }

  lemma MultipleAtLeast(k: int, d: nat)
    ensures k >= 1 ==> k * d >= d
    ensures k <= -1 ==> k * d + d <= 0
  {
  }

  lemma PassesLeft(expired: nat, batch: nat)
    requires batch > 0
    ensures expired >= batch ==> (expired - batch) / batch + 1 == expired / batch
    ensures expired < batch ==> expired / batch == 0
  {
    if expired >= batch {
      var left := expired - batch;
      var q, r := left / batch, left % batch;
      assert left == q * batch + r;
      assert q * batch + batch == (q + 1) * batch;
      QuotientIs(expired, batch, q + 1, r);
    }
  }

  /**
   * What the passes of a cleanup at a fixed instant come to, without other writers; `cancelled` says whether the
   * context has ended at each pass. With E records expired and no cancellation there are E / batch + 1 passes with
   * total E, and exactly what has not expired is kept. A cancelled pass is the last, with as many records removed and
   * counted as the full batches before it.
   */
  ghost predicate RanPasses(before: Records, after: Records, now: Time, configuredBatch: int, cancelled: nat -> bool,
                            total: nat, passes: nat)
  {
    var batch := if configuredBatch <= 0 then 500 else configuredBatch;
    var expired := |ExpiredKeys(before, now)|;
    && 1 <= passes <= expired / batch + 1
    && (forall k :: 0 <= k < passes - 1 ==> !cancelled(k))
    && (if cancelled(passes - 1) then total == (passes - 1) * batch
        else total == expired && passes == expired / batch + 1 && after == Unexpired(before, now))
    && total + |ExpiredKeys(after, now)| == expired
    && Unexpired(after, now) == Unexpired(before, now)
  }

  /** A connection to a store that outlives the process. */
  class Connection {
    const repository: MemoryRepository
    var isOpen: bool

    constructor (repository: MemoryRepository)
      ensures this.repository == repository && !isOpen
    {
      this.repository, isOpen := repository, false;
    }
  }

  /**
   * cleanupExpired. Nothing happens when its context has already ended, when the store is the one in memory, or when
   * the store does not open. Otherwise it runs its passes, and closes the store whatever they came to. It fails
   * exactly when one of these failed.
   */
  method CleanupExpired(connection: Connection, startCancelled: bool, memoryBackend: bool, openFails: bool,
                        closeFails: bool, now: Time, configuredBatch: int, cancelled: nat -> bool)
    returns (total: nat, failed: bool, ghost passes: nat)
    requires !connection.isOpen
    modifies connection, connection.repository
    ensures !connection.isOpen
    ensures startCancelled || memoryBackend || openFails ==>
              failed && total == passes == 0 && connection.repository.records == old(connection.repository.records)
    ensures !startCancelled && !memoryBackend && !openFails ==>
      && RanPasses(old(connection.repository.records), connection.repository.records, now, configuredBatch, cancelled,
                   total, passes)
      && failed == (cancelled(passes - 1) || closeFails)
  {
    if startCancelled || memoryBackend || openFails {
      return 0, true, 0;
    }
    connection.isOpen := true;
    total, failed, passes := RunPasses(connection.repository, now, configuredBatch, cancelled);
    connection.isOpen := false;
    failed := failed || closeFails;
  }

  /** The loop of cleanupExpired. */
  method RunPasses(repository: MemoryRepository, now: Time, configuredBatch: int, cancelled: nat -> bool)
    returns (total: nat, failed: bool, ghost passes: nat)
    modifies repository
    ensures RanPasses(old(repository.records), repository.records, now, configuredBatch, cancelled, total, passes)
    ensures failed == cancelled(passes - 1)
  {
    hide RemovesOldest, ExpiredKeys, Unexpired, FullBatches;
    var batch := if configuredBatch <= 0 then DEFAULT_BATCH else configuredBatch;
    total, failed := 0, false;
    var pass, more := 0, true;
    ghost var start := repository.records;
    ghost var all := |ExpiredKeys(start, now)|;
    NoBatches(all, batch);
    while more
      invariant Unexpired(repository.records, now) == Unexpired(start, now)
      invariant forall k :: 0 <= k < (if more then pass else pass - 1) ==> !cancelled(k)
      invariant more ==> FullBatches(all, |ExpiredKeys(repository.records, now)|, batch, pass, total)
      invariant !more ==> pass >= 1 && failed == cancelled(pass - 1)
      invariant !more && failed ==>
        FullBatches(all, |ExpiredKeys(repository.records, now)|, batch, pass - 1, total)
      invariant !more && !failed ==>
        pass == all / batch + 1 && total == all && |ExpiredKeys(repository.records, now)| == 0
      invariant more ==> !failed
      decreases more, |ExpiredKeys(repository.records, now)|
    {
      ghost var before := repository.records;
      var ended := cancelled(pass);
      var deleted := repository.DeleteExpired(ended, now, batch);
      assert deleted.Failed? == ended;
      if deleted.Failed? {
        failed, more := true, false;
      } else {
        PassFacts(before, repository.records, now, batch, deleted.value);
        OneBatch(all, |ExpiredKeys(before, now)|, batch, pass, total);
        total := total + deleted.value;
        if deleted.value < batch {
          more := false;
        }
      }
      pass := pass + 1;
    }
    passes := pass;
    if failed {
      BatchesSoFar(all, |ExpiredKeys(repository.records, now)|, batch, pass - 1, total);
    } else {
      NothingExpired(repository.records, now);
    }
  }

  /** After so many full batches, `left` of all the expired records are left. */
  ghost predicate FullBatches(all: nat, left: nat, batch: nat, passes: nat, total: nat)
    requires batch > 0
  {
    passes + left / batch == all / batch && total == passes * batch && total + left == all
  }

  lemma NoBatches(all: nat, batch: nat)
    requires batch > 0
    ensures FullBatches(all, all, batch, 0, 0)
  {
  }

  lemma OneBatch(all: nat, left: nat, batch: nat, passes: nat, total: nat)
    requires batch > 0 && FullBatches(all, left, batch, passes, total)
    ensures left >= batch ==> FullBatches(all, left - batch, batch, passes + 1, total + batch)
    ensures left < batch ==> total + left == all && passes + 1 == all / batch + 1
  {
    PassesLeft(left, batch);
    assert (passes + 1) * batch == passes * batch + batch;
  }

  lemma BatchesSoFar(all: nat, left: nat, batch: nat, passes: nat, total: nat)
    requires batch > 0 && FullBatches(all, left, batch, passes, total)
    ensures passes <= all / batch && total == passes * batch && total + left == all
  {
  }
}
