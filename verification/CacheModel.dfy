/** The Safe Browsing cache on values: what `get` and `put` do to the recency list. */
module CacheModel {
  import opened Common

  const SECOND := 1_000_000_000
  const MAX_UINT32: Uint32 := 0xffff_ffff
  /** time.Time.Sub saturates at the largest time.Duration. */
  const MAX_DURATION := 0x7fff_ffff_ffff_ffff
  const DEFAULT_CACHE_ENTRIES: nat := 4096
  const MAX_PREFIXES: nat := 30

  type Prefix = p: Bytes | |p| == 4 witness [0, 0, 0, 0]
  type Hash = h: Bytes | |h| == 32 witness seq(32, _ => 0)

  /** Instants are nanoseconds. */
  type Time = int

  datatype FullHash = FullHash(hash: Hash, threatType: string, attributes: seq<string>, cacheSeconds: Uint32)

  datatype LookupResult = LookupResult(fullHashes: seq<FullHash>, cacheSeconds: Uint32)

  datatype CacheEntry = CacheEntry(prefix: Prefix, fullHashes: seq<FullHash>, expiresAt: Time)

  function PrefixOf(h: FullHash): Prefix {
    h.hash[..4]
  }

  function WithSeconds(hashes: seq<FullHash>, seconds: Uint32): (r: seq<FullHash>)
    ensures |r| == |hashes|
  {
    seq(|hashes|, i requires 0 <= i < |hashes| => hashes[i].(cacheSeconds := seconds))
  }

  /** The hashes with their advisory seconds blanked: what the cache must preserve. */
  function Bare(hashes: seq<FullHash>): seq<FullHash> {
    WithSeconds(hashes, 0)
  }

  function Matching(hashes: seq<FullHash>, prefix: Prefix): seq<FullHash> {
    if hashes == [] then []
    else (if PrefixOf(hashes[0]) == prefix then [hashes[0]] else []) + Matching(hashes[1..], prefix)
  }

  function ExpiryOf(at: Time, seconds: Uint32): Time {
    at + seconds * SECOND
  }

  /** remainingCacheSeconds: never past the expiry, and zero once it is reached. */
  function RemainingSeconds(now: Time, expiresAt: Time): (s: Uint32)
    ensures now < expiresAt ==> now + s * SECOND <= expiresAt
    ensures now >= expiresAt ==> s == 0
    ensures now < expiresAt && s < MAX_UINT32 ==> expiresAt < now + (s + 1) * SECOND
  {
    if now >= expiresAt then 0
    else
      var duration := if expiresAt - now > MAX_DURATION then MAX_DURATION else expiresAt - now;
      var seconds := duration / SECOND;
      if seconds > MAX_UINT32 then MAX_UINT32 else seconds
  }

  /** An entry stays for the seconds it came with, and the whole seconds it has left are reported, up to 2^32 - 1. */
  lemma SecondsLeft(at: Time, seconds: Uint32, now: Time)
    ensures ExpiryOf(at, seconds) == at + seconds * 1_000_000_000
    ensures var left := ExpiryOf(at, seconds) - now;
            RemainingSeconds(now, ExpiryOf(at, seconds))
            == if left <= 0 then 0
               else if left >= 4294967295 * 1_000_000_000 then 4294967295 else left / 1_000_000_000
  {
  }

  function RemoveAt<T>(s: seq<T>, i: nat): seq<T>
    requires i < |s|
  {
    s[..i] + s[i + 1..]
  }

  function Find(contents: seq<CacheEntry>, prefix: Prefix): (i: nat)
    ensures i <= |contents|
    ensures i < |contents| ==> contents[i].prefix == prefix
    ensures forall j :: 0 <= j < i ==> contents[j].prefix != prefix
  {
    if contents == [] then 0
    else if contents[0].prefix == prefix then 0
    else
      var k := Find(contents[1..], prefix);
      assert forall j :: 0 < j < 1 + k ==> contents[j] == contents[1..][j - 1];
      1 + k
  }

  function Without(contents: seq<CacheEntry>, prefix: Prefix): seq<CacheEntry> {
    var i := Find(contents, prefix);
    if i < |contents| then RemoveAt(contents, i) else contents
  }

  predicate Live(contents: seq<CacheEntry>, prefix: Prefix, now: Time) {
    var i := Find(contents, prefix);
    i < |contents| && now < contents[i].expiresAt
  }

  function AfterGet(contents: seq<CacheEntry>, prefix: Prefix, now: Time): seq<CacheEntry> {
    if Live(contents, prefix, now) then [contents[Find(contents, prefix)]] + Without(contents, prefix)
    else Without(contents, prefix)
  }

  function AfterPut(contents: seq<CacheEntry>, entry: CacheEntry, maxEntries: nat): seq<CacheEntry> {
    var s := [entry] + Without(contents, entry.prefix);
    if |s| > maxEntries then s[..maxEntries] else s
  }

  ghost predicate DistinctPrefixes(contents: seq<CacheEntry>) {
    forall i, j :: 0 <= i < j < |contents| ==> contents[i].prefix != contents[j].prefix
  }

  // ----- Runs of get and put -----

  datatype Op = Get(prefix: Prefix, now: Time) | Put(entry: CacheEntry)

  function Step(contents: seq<CacheEntry>, op: Op, maxEntries: nat): seq<CacheEntry> {
    match op
    case Get(prefix, now) => AfterGet(contents, prefix, now)
    case Put(entry) => AfterPut(contents, entry, maxEntries)
  }

  /** The contents after a run, from an empty cache. */
  function Run(ops: seq<Op>, maxEntries: nat): seq<CacheEntry> {
    if ops == [] then [] else Step(Run(ops[..|ops| - 1], maxEntries), ops[|ops| - 1], maxEntries)
  }

  /** An operation touches a prefix when it stores it or finds it live. */
  predicate Touches(contents: seq<CacheEntry>, op: Op, prefix: Prefix) {
    match op
    case Get(p, now) => p == prefix && Live(contents, p, now)
    case Put(entry) => entry.prefix == prefix
  }

  /** When the prefix was last touched in the run, counted from one; zero for never. */
  function LastTouch(ops: seq<Op>, maxEntries: nat, prefix: Prefix): nat {
    if ops == [] then 0
    else if Touches(Run(ops[..|ops| - 1], maxEntries), ops[|ops| - 1], prefix) then |ops|
    else LastTouch(ops[..|ops| - 1], maxEntries, prefix)
  }

  /** List order is recency order. */
  ghost predicate InRecencyOrder(contents: seq<CacheEntry>, ops: seq<Op>, maxEntries: nat) {
    && (forall i :: 0 <= i < |contents| ==> 0 < LastTouch(ops, maxEntries, contents[i].prefix) <= |ops|)
    && (forall i, j :: 0 <= i < j < |contents| ==>
          LastTouch(ops, maxEntries, contents[j].prefix) < LastTouch(ops, maxEntries, contents[i].prefix))
  }

  lemma {:induction false} LastTouchStep(ops: seq<Op>, maxEntries: nat, prefix: Prefix)
    requires ops != []
    ensures var before := ops[..|ops| - 1];
            LastTouch(ops, maxEntries, prefix)
            == if Touches(Run(before, maxEntries), ops[|before|], prefix) then |ops|
               else LastTouch(before, maxEntries, prefix)
  {
  }

  lemma {:induction false} RemoveKeepsOrder(s: seq<CacheEntry>, i: nat, ops: seq<Op>, maxEntries: nat)
    requires i < |s| && DistinctPrefixes(s) && InRecencyOrder(s, ops, maxEntries)
    ensures InRecencyOrder(RemoveAt(s, i), ops, maxEntries) && DistinctPrefixes(RemoveAt(s, i))
    ensures forall k :: 0 <= k < |s| - 1 ==> RemoveAt(s, i)[k].prefix != s[i].prefix
  {
    hide LastTouch;
    var r := RemoveAt(s, i);
    forall k | 0 <= k < |r|
      ensures r[k] == if k < i then s[k] else s[k + 1]
    {
    }
  }

  /** Entries an operation does not touch keep their order. */
  lemma {:induction false} UntouchedKeepOrder(s: seq<CacheEntry>, ops: seq<Op>, maxEntries: nat)
    requires ops != []
    requires var before := ops[..|ops| - 1];
             && InRecencyOrder(s, before, maxEntries)
             && forall k :: 0 <= k < |s| ==> !Touches(Run(before, maxEntries), ops[|before|], s[k].prefix)
    ensures InRecencyOrder(s, ops, maxEntries)
    ensures forall k :: 0 <= k < |s| ==> LastTouch(ops, maxEntries, s[k].prefix) < |ops|
  {
    hide LastTouch, Run, Touches;
    forall k | 0 <= k < |s|
      ensures LastTouch(ops, maxEntries, s[k].prefix) == LastTouch(ops[..|ops| - 1], maxEntries, s[k].prefix)
    {
      LastTouchStep(ops, maxEntries, s[k].prefix);
    }
  }

  lemma {:induction false} FrontIsMostRecent(e: CacheEntry, s: seq<CacheEntry>, ops: seq<Op>, maxEntries: nat)
    requires ops != [] && InRecencyOrder(s, ops, maxEntries)
    requires Touches(Run(ops[..|ops| - 1], maxEntries), ops[|ops| - 1], e.prefix)
    requires forall k :: 0 <= k < |s| ==> LastTouch(ops, maxEntries, s[k].prefix) < |ops|
    ensures InRecencyOrder([e] + s, ops, maxEntries)
  {
    hide LastTouch, Run, Touches;
    LastTouchStep(ops, maxEntries, e.prefix);
    var r := [e] + s;
    forall i, j | 0 <= i < j < |r|
      ensures LastTouch(ops, maxEntries, r[j].prefix) < LastTouch(ops, maxEntries, r[i].prefix)
    {
      assert r[j] == s[j - 1] && (i > 0 ==> r[i] == s[i - 1]);
    }
  }

  lemma {:induction false} WithoutKeepsOrder(s: seq<CacheEntry>, prefix: Prefix, ops: seq<Op>, maxEntries: nat)
    requires DistinctPrefixes(s) && InRecencyOrder(s, ops, maxEntries)
    ensures var r := Without(s, prefix);
            && InRecencyOrder(r, ops, maxEntries) && DistinctPrefixes(r)
            && (forall k :: 0 <= k < |r| ==> r[k].prefix != prefix)
            && (Find(s, prefix) < |s| ==> |r| == |s| - 1)
            && (forall e :: e in s && e.prefix != prefix ==> e in r)
  {
    hide InRecencyOrder;
    var i := Find(s, prefix);
    if i < |s| {
      RemoveKeepsOrder(s, i, ops, maxEntries);
      forall e | e in s && e.prefix != prefix
        ensures e in RemoveAt(s, i)
      {
        var k :| 0 <= k < |s| && s[k] == e;
        assert RemoveAt(s, i)[if k < i then k else k - 1] == e;
      }
    }
  }

  /** The entries an operation leaves alone, seen after it. */
  lemma {:induction false} OthersInOrder(ops: seq<Op>, maxEntries: nat)
    requires ops != []
    requires InRecencyOrder(Run(ops[..|ops| - 1], maxEntries), ops[..|ops| - 1], maxEntries)
    requires DistinctPrefixes(Run(ops[..|ops| - 1], maxEntries))
    ensures var before := ops[..|ops| - 1];
            var r := Without(Run(before, maxEntries), Operand(ops[|before|]));
            && InRecencyOrder(r, ops, maxEntries) && DistinctPrefixes(r)
            && (forall k :: 0 <= k < |r| ==> r[k].prefix != Operand(ops[|before|]))
            && (forall k :: 0 <= k < |r| ==> LastTouch(ops, maxEntries, r[k].prefix) < |ops|)
  {
    hide InRecencyOrder, Run, LastTouch;
    var before := ops[..|ops| - 1];
    WithoutKeepsOrder(Run(before, maxEntries), Operand(ops[|before|]), before, maxEntries);
    UntouchedKeepOrder(Without(Run(before, maxEntries), Operand(ops[|before|])), ops, maxEntries);
  }

  function Operand(op: Op): Prefix {
    if op.Get? then op.prefix else op.entry.prefix
  }

  lemma {:induction false} FrontIsDistinct(e: CacheEntry, s: seq<CacheEntry>)
    requires DistinctPrefixes(s) && forall k :: 0 <= k < |s| ==> s[k].prefix != e.prefix
    ensures DistinctPrefixes([e] + s)
  {
    var r := [e] + s;
    assert forall k :: 0 < k < |r| ==> r[k] == s[k - 1];
  }

  lemma {:induction false} PrefixKeepsOrder(s: seq<CacheEntry>, n: nat, ops: seq<Op>, maxEntries: nat)
    requires n <= |s| && DistinctPrefixes(s) && InRecencyOrder(s, ops, maxEntries)
    ensures DistinctPrefixes(s[..n]) && InRecencyOrder(s[..n], ops, maxEntries)
  {
  }

  /** What the last operation puts in front, if anything, and the rest. */
  lemma {:induction false} FullListInOrder(ops: seq<Op>, maxEntries: nat, front: CacheEntry)
    requires ops != []
    requires InRecencyOrder(Run(ops[..|ops| - 1], maxEntries), ops[..|ops| - 1], maxEntries)
    requires DistinctPrefixes(Run(ops[..|ops| - 1], maxEntries))
    requires front.prefix == Operand(ops[|ops| - 1])
    requires Touches(Run(ops[..|ops| - 1], maxEntries), ops[|ops| - 1], front.prefix)
    ensures var all := [front] + Without(Run(ops[..|ops| - 1], maxEntries), front.prefix);
            DistinctPrefixes(all) && InRecencyOrder(all, ops, maxEntries)
  {
    hide InRecencyOrder, Run, LastTouch, Touches, Without;
    OthersInOrder(ops, maxEntries);
    var others := Without(Run(ops[..|ops| - 1], maxEntries), front.prefix);
    FrontIsMostRecent(front, others, ops, maxEntries);
    FrontIsDistinct(front, others);
  }

  lemma {:induction false} StepKeepsOrder(ops: seq<Op>, maxEntries: nat)
    requires ops != []
    requires InRecencyOrder(Run(ops[..|ops| - 1], maxEntries), ops[..|ops| - 1], maxEntries)
    requires DistinctPrefixes(Run(ops[..|ops| - 1], maxEntries))
    ensures var now := Step(Run(ops[..|ops| - 1], maxEntries), ops[|ops| - 1], maxEntries);
            DistinctPrefixes(now) && InRecencyOrder(now, ops, maxEntries)
  {
    hide InRecencyOrder, DistinctPrefixes, LastTouch, Without, Run;
    var was, op := Run(ops[..|ops| - 1], maxEntries), ops[|ops| - 1];
    OthersInOrder(ops, maxEntries);
    match op
    case Put(entry) =>
      FullListInOrder(ops, maxEntries, entry);
      var all := [entry] + Without(was, entry.prefix);
      var n := if |all| > maxEntries then maxEntries else |all|;
      PrefixKeepsOrder(all, n, ops, maxEntries);
      assert AfterPut(was, entry, maxEntries) == all[..n];
    case Get(prefix, now) =>
      if Live(was, prefix, now) {
        FullListInOrder(ops, maxEntries, was[Find(was, prefix)]);
      }
  }

  /** After any run: the list is in recency order and no prefix occurs twice. */
  lemma {:induction false} RecencyOrder(ops: seq<Op>, maxEntries: nat)
    ensures InRecencyOrder(Run(ops, maxEntries), ops, maxEntries)
    ensures DistinctPrefixes(Run(ops, maxEntries))
  {
    if ops != [] {
      hide Step;
      RecencyOrder(ops[..|ops| - 1], maxEntries);
      StepKeepsOrder(ops, maxEntries);
    }
  }

  /** The cache never holds more than its limit. */
  lemma {:induction false} WithinBounds(ops: seq<Op>, maxEntries: nat)
    ensures |Run(ops, maxEntries)| <= maxEntries
  {
    if ops != [] {
      WithinBounds(ops[..|ops| - 1], maxEntries);
    }
  }

  /** A `put` into a list within its limit puts the entry in front and evicts one other entry at most, the last. */
  lemma {:induction false} PutEvictsOne(contents: seq<CacheEntry>, entry: CacheEntry, maxEntries: nat)
    requires 0 < maxEntries && |contents| <= maxEntries && DistinctPrefixes(contents)
    ensures var after := AfterPut(contents, entry, maxEntries);
            && after[0] == entry
            && forall i :: 0 <= i < |contents| && contents[i].prefix != entry.prefix && contents[i] !in after ==>
                 i == |contents| - 1 == maxEntries - 1 && Find(contents, entry.prefix) == |contents|
  {
    hide DistinctPrefixes;
    var at, after := Find(contents, entry.prefix), AfterPut(contents, entry, maxEntries);
    forall i | 0 <= i < |contents| && contents[i].prefix != entry.prefix
      ensures contents[i] in after || (i == |contents| - 1 == maxEntries - 1 && at == |contents|)
    {
      var k := if i < at then i else i - 1;
      assert Without(contents, entry.prefix)[k] == contents[i];
      assert ([entry] + Without(contents, entry.prefix))[k + 1] == contents[i];
      if k + 1 < maxEntries {
        assert after[k + 1] == contents[i];
      }
    }
  }

  /** What a `put` evicts was touched before everything it keeps. */
  lemma {:induction false} EvictsLeastRecent(ops: seq<Op>, maxEntries: nat, gone: CacheEntry, kept: CacheEntry)
    requires ops != [] && ops[|ops| - 1].Put?
    requires gone in Run(ops[..|ops| - 1], maxEntries) && gone.prefix != ops[|ops| - 1].entry.prefix
    requires gone !in Run(ops, maxEntries) && kept in Run(ops, maxEntries)
    ensures LastTouch(ops, maxEntries, gone.prefix) < LastTouch(ops, maxEntries, kept.prefix)
  {
    hide LastTouch, InRecencyOrder, DistinctPrefixes, Without, Run;
    var before := ops[..|ops| - 1];
    var was, entry := Run(before, maxEntries), ops[|before|].entry;
    RecencyOrder(before, maxEntries);
    FullListInOrder(ops, maxEntries, entry);
    WithoutKeepsOrder(was, entry.prefix, before, maxEntries);
    var all := [entry] + Without(was, entry.prefix);
    PutIsLast(ops, maxEntries);
    assert gone in all;
    EvictedIsLast(all, maxEntries, gone, kept, ops);
  }

  lemma {:induction false} PutIsLast(ops: seq<Op>, maxEntries: nat)
    requires ops != [] && ops[|ops| - 1].Put?
    ensures Run(ops, maxEntries) == AfterPut(Run(ops[..|ops| - 1], maxEntries), ops[|ops| - 1].entry, maxEntries)
  {
  }

  lemma {:induction false} EvictedIsLast(
      all: seq<CacheEntry>, maxEntries: nat, gone: CacheEntry, kept: CacheEntry, ops: seq<Op>)
    requires InRecencyOrder(all, ops, maxEntries) && gone in all
    requires var left := if |all| > maxEntries then all[..maxEntries] else all;
             gone !in left && kept in left
    ensures LastTouch(ops, maxEntries, gone.prefix) < LastTouch(ops, maxEntries, kept.prefix)
  {
    hide LastTouch;
    assert all == all[..maxEntries] + all[maxEntries..];
    assert gone in all[maxEntries..];
    var x :| 0 <= x < |all| - maxEntries && all[maxEntries..][x] == gone;
    var y :| 0 <= y < maxEntries && all[..maxEntries][y] == kept;
    assert all[maxEntries + x] == gone && all[y] == kept;
  }

  // ----- Lookups -----

  /** deduplicatePrefixes: first occurrences, in order. */
  function Unique(prefixes: seq<Prefix>): seq<Prefix> {
    if prefixes == [] then []
    else
      var last := |prefixes| - 1;
      Unique(prefixes[..last]) + if prefixes[last] in prefixes[..last] then [] else [prefixes[last]]
  }

  ghost predicate Distinct(prefixes: seq<Prefix>) {
    prefixes == []
    || (prefixes[|prefixes| - 1] !in prefixes[..|prefixes| - 1] && Distinct(prefixes[..|prefixes| - 1]))
  }

  lemma {:induction false} UniqueIsSet(prefixes: seq<Prefix>)
    ensures forall p :: p in Unique(prefixes) <==> p in prefixes
    ensures Distinct(Unique(prefixes))
  {
    if prefixes != [] {
      var last := |prefixes| - 1;
      UniqueIsSet(prefixes[..last]);
      var u := Unique(prefixes[..last]);
      assert (u + [prefixes[last]])[..|u|] == u && u + [] == u;
      assert prefixes == prefixes[..last] + [prefixes[last]];
    }
  }

  function AfterGets(contents: seq<CacheEntry>, prefixes: seq<Prefix>, now: Time): seq<CacheEntry> {
    if prefixes == [] then contents
    else AfterGet(AfterGets(contents, prefixes[..|prefixes| - 1], now), prefixes[|prefixes| - 1], now)
  }

  /** The prefixes the cache has no live entry for. */
  function Missing(contents: seq<CacheEntry>, prefixes: seq<Prefix>, now: Time): seq<Prefix> {
    if prefixes == [] then []
    else
      var last := |prefixes| - 1;
      Missing(contents, prefixes[..last], now) + if Live(contents, prefixes[last], now) then [] else [prefixes[last]]
  }

  function AfterPuts(contents: seq<CacheEntry>, prefixes: seq<Prefix>, hashes: seq<FullHash>, expiresAt: Time,
                     maxEntries: nat): seq<CacheEntry>
  {
    if prefixes == [] then contents
    else
      var last := |prefixes| - 1;
      var entry := CacheEntry(prefixes[last], Matching(hashes, prefixes[last]), expiresAt);
      AfterPut(AfterPuts(contents, prefixes[..last], hashes, expiresAt, maxEntries), entry, maxEntries)
  }

  lemma FindIsPosition(contents: seq<CacheEntry>, i: nat)
    requires i < |contents| && DistinctPrefixes(contents)
    ensures Find(contents, contents[i].prefix) == i
  {
  }

  lemma {:induction false} LiveIffMember(contents: seq<CacheEntry>, prefix: Prefix, now: Time)
    requires DistinctPrefixes(contents)
    ensures Live(contents, prefix, now) <==> exists e :: e in contents && e.prefix == prefix && now < e.expiresAt
  {
    var i := Find(contents, prefix);
    if i < |contents| {
      assert contents[i] in contents;
      forall e | e in contents && e.prefix == prefix
        ensures e == contents[i]
      {
        var k :| 0 <= k < |contents| && contents[k] == e;
        FindIsPosition(contents, k);
      }
    }
  }

  /** A `get` drops nothing but an expired entry for its prefix. */
  lemma {:induction false} GetMembers(contents: seq<CacheEntry>, prefix: Prefix, now: Time)
    requires DistinctPrefixes(contents)
    ensures var after := AfterGet(contents, prefix, now);
            && DistinctPrefixes(after)
            && forall e :: e in after <==> e in contents && !(e.prefix == prefix && now >= e.expiresAt)
  {
    hide DistinctPrefixes, Without;
    WithoutIsRest(contents, prefix);
    if Live(contents, prefix, now) {
      FrontIsDistinct(contents[Find(contents, prefix)], Without(contents, prefix));
    }
    OneOfItsPrefix(contents, prefix);
  }

  lemma {:induction false} WithoutIsRest(s: seq<CacheEntry>, prefix: Prefix)
    requires DistinctPrefixes(s)
    ensures var r := Without(s, prefix);
            && DistinctPrefixes(r) && (forall k :: 0 <= k < |r| ==> r[k].prefix != prefix)
            && forall e :: e in r <==> e in s && e.prefix != prefix
  {
    hide DistinctPrefixes, RemoveAt;
    var i := Find(s, prefix);
    if i < |s| {
      RemoveIsRest(s, i);
    }
  }

  lemma {:induction false} OneOfItsPrefix(s: seq<CacheEntry>, prefix: Prefix)
    requires DistinctPrefixes(s)
    ensures forall e :: e in s && e.prefix == prefix ==> Find(s, prefix) < |s| && e == s[Find(s, prefix)]
  {
  }

  lemma {:induction false} RemoveIsRest(s: seq<CacheEntry>, i: nat)
    requires i < |s| && DistinctPrefixes(s)
    ensures DistinctPrefixes(RemoveAt(s, i))
    ensures forall k :: 0 <= k < |s| - 1 ==> RemoveAt(s, i)[k].prefix != s[i].prefix
    ensures forall e :: e in RemoveAt(s, i) <==> e in s && e.prefix != s[i].prefix
  {
    var r := RemoveAt(s, i);
    forall k | 0 <= k < |r|
      ensures r[k] == s[if k < i then k else k + 1]
    {
    }
    forall e | e in s && e.prefix != s[i].prefix
      ensures e in r
    {
      var k :| 0 <= k < |s| && s[k] == e;
      assert r[if k < i then k else k - 1] == e;
    }
  }

  /** A `get` does not change which prefixes are live. */
  lemma {:induction false} GetKeepsLive(contents: seq<CacheEntry>, prefix: Prefix, now: Time, q: Prefix)
    requires DistinctPrefixes(contents)
    ensures DistinctPrefixes(AfterGet(contents, prefix, now))
    ensures Live(AfterGet(contents, prefix, now), q, now) == Live(contents, q, now)
  {
    hide DistinctPrefixes, Live, AfterGet;
    GetMembers(contents, prefix, now);
    LiveIffMember(contents, q, now);
    LiveIffMember(AfterGet(contents, prefix, now), q, now);
  }

  lemma {:induction false} MatchingAppend(hashes: seq<FullHash>, h: FullHash, prefix: Prefix)
    ensures Matching(hashes + [h], prefix) == Matching(hashes, prefix) + if PrefixOf(h) == prefix then [h] else []
  {
    if hashes != [] {
      assert (hashes + [h])[1..] == hashes[1..] + [h];
      MatchingAppend(hashes[1..], h, prefix);
    } else {
      assert hashes + [h] == [h];
    }
  }

  lemma BareAppend(a: seq<FullHash>, b: seq<FullHash>)
    ensures Bare(a + b) == Bare(a) + Bare(b)
  {
  }

  /** The parts of an answer that belong to the given prefixes. */
  ghost function PartsOf(hashes: seq<FullHash>, prefixes: seq<Prefix>): multiset<FullHash> {
    if prefixes == [] then multiset{}
    else
      var last := |prefixes| - 1;
      PartsOf(hashes, prefixes[..last]) + PartOf(hashes, prefixes[last])
  }

  ghost function PartOf(hashes: seq<FullHash>, prefix: Prefix): multiset<FullHash> {
    multiset(Bare(Matching(hashes, prefix)))
  }

  lemma {:induction false} PartAppend(hashes: seq<FullHash>, h: FullHash, prefix: Prefix)
    ensures PartOf(hashes + [h], prefix)
         == PartOf(hashes, prefix) + if PrefixOf(h) == prefix then multiset(Bare([h])) else multiset{}
  {
    hide Matching, Bare;
    MatchingAppend(hashes, h, prefix);
    if PrefixOf(h) == prefix {
      BareAppend(Matching(hashes, prefix), [h]);
    } else {
      assert Matching(hashes, prefix) + [] == Matching(hashes, prefix);
    }
  }

  lemma AddToOne(a: multiset<FullHash>, b: multiset<FullHash>, x: multiset<FullHash>, toA: bool, toB: bool)
    requires !(toA && toB)
    ensures (a + if toA then x else multiset{}) + (b + if toB then x else multiset{})
         == (a + b) + if toA || toB then x else multiset{}
  {
  }

  lemma {:induction false} PartsLast(hashes: seq<FullHash>, prefixes: seq<Prefix>)
    requires prefixes != []
    ensures var last := |prefixes| - 1;
            PartsOf(hashes, prefixes) == PartsOf(hashes, prefixes[..last]) + PartOf(hashes, prefixes[last])
  {
  }

  lemma InLast(prefixes: seq<Prefix>, p: Prefix)
    requires prefixes != []
    ensures var last := |prefixes| - 1;
            p in prefixes <==> p in prefixes[..last] || p == prefixes[last]
  {
    assert prefixes == prefixes[..|prefixes| - 1] + [prefixes[|prefixes| - 1]];
  }

  lemma {:induction false} PartsAppend(hashes: seq<FullHash>, h: FullHash, prefixes: seq<Prefix>)
    requires Distinct(prefixes)
    ensures PartsOf(hashes + [h], prefixes)
         == PartsOf(hashes, prefixes) + if PrefixOf(h) in prefixes then multiset(Bare([h])) else multiset{}
  {
    if prefixes == [] {
      NoPartsOfNone(hashes);
      NoPartsOfNone(hashes + [h]);
    } else {
      hide PartOf, PartsOf, Bare, PrefixOf;
      var last := |prefixes| - 1;
      PartsAppend(hashes, h, prefixes[..last]);
      PartAppend(hashes, h, prefixes[last]);
      PartsLast(hashes, prefixes);
      PartsLast(hashes + [h], prefixes);
      InLast(prefixes, PrefixOf(h));
      AddToOne(PartsOf(hashes, prefixes[..last]), PartOf(hashes, prefixes[last]), multiset(Bare([h])),
        PrefixOf(h) in prefixes[..last], PrefixOf(h) == prefixes[last]);
    }
  }

  lemma NoPartsOfNone(hashes: seq<FullHash>)
    ensures PartsOf(hashes, []) == multiset{}
  {
  }

  /** An answer without foreign hashes is the sum of its parts. */
  lemma {:induction false} PartsAreWhole(hashes: seq<FullHash>, prefixes: seq<Prefix>)
    requires Distinct(prefixes)
    requires forall h :: h in hashes ==> PrefixOf(h) in prefixes
    ensures PartsOf(hashes, prefixes) == multiset(Bare(hashes))
  {
    if hashes == [] {
      NoParts(prefixes);
    } else {
      hide PartsOf, Bare, Distinct, PrefixOf;
      var rest, h := hashes[..|hashes| - 1], hashes[|hashes| - 1];
      assert hashes == rest + [h];
      assert h in hashes;
      PartsAreWhole(rest, prefixes);
      PartsAppend(rest, h, prefixes);
      BareAppend(rest, [h]);
    }
  }

  lemma {:induction false} NoParts(prefixes: seq<Prefix>)
    ensures PartsOf([], prefixes) == multiset{}
  {
    if prefixes != [] {
      NoParts(prefixes[..|prefixes| - 1]);
      assert Bare([]) == [];
    }
  }

  // ----- Where the answers of a lookup come from -----

  /** What upstream answered, and when it was asked. */
  datatype Fetch = Fetch(at: Time, asked: seq<Prefix>, answer: LookupResult)

  function FetchExpiry(f: Fetch): Time {
    ExpiryOf(f.at, f.answer.cacheSeconds)
  }

  /** The entry is the part of that answer that belongs to its prefix. */
  ghost predicate Supplies(f: Fetch, e: CacheEntry) {
    && e.prefix in f.asked
    && e.fullHashes == Matching(f.answer.fullHashes, e.prefix)
    && e.expiresAt == FetchExpiry(f)
  }

  ghost predicate Justified(e: CacheEntry, log: seq<Fetch>) {
    exists f :: f in log && Supplies(f, e)
  }

  ghost predicate AllJustified(contents: seq<CacheEntry>, log: seq<Fetch>) {
    forall i :: 0 <= i < |contents| ==> Justified(contents[i], log)
  }

  /** One prefix of a lookup and the upstream answer its hashes come from. */
  datatype Source = Source(prefix: Prefix, fetch: Fetch)

  ghost function PrefixesOf(sources: seq<Source>): seq<Prefix> {
    seq(|sources|, i requires 0 <= i < |sources| => sources[i].prefix)
  }

  ghost function Collected(sources: seq<Source>): multiset<FullHash> {
    if sources == [] then multiset{}
    else
      var last := |sources| - 1;
      Collected(sources[..last]) + PartOf(sources[last].fetch.answer.fullHashes, sources[last].prefix)
  }

  /** A source in the log that a lookup at `now` may use while it promises `seconds`. */
  ghost predicate Usable(s: Source, log: seq<Fetch>, now: Time, seconds: Uint32) {
    && s.fetch in log && s.prefix in s.fetch.asked
    && (now < FetchExpiry(s.fetch) || s.fetch.at == now)
    && ExpiryOf(now, seconds) <= FetchExpiry(s.fetch)
  }

  ghost predicate AllUsable(sources: seq<Source>, log: seq<Fetch>, now: Time, seconds: Uint32) {
    forall i :: 0 <= i < |sources| ==> Usable(sources[i], log, now, seconds)
  }

  /** The hashes are, up to order, what the sources supply. */
  ghost predicate Answers(hits: seq<FullHash>, sources: seq<Source>) {
    multiset(Bare(hits)) == Collected(sources)
  }

  /** The seconds a hash is returned with: what its source has left, or what upstream said a moment ago. */
  ghost predicate Timed(h: FullHash, s: Source, now: Time) {
    && s.prefix == PrefixOf(h)
    && (h.cacheSeconds == RemainingSeconds(now, FetchExpiry(s.fetch))
        || (s.fetch.at == now && h in s.fetch.answer.fullHashes))
  }

  ghost predicate AllTimed(hits: seq<FullHash>, sources: seq<Source>, now: Time) {
    forall h :: h in hits ==> exists s :: s in sources && Timed(h, s, now)
  }

  lemma NoneTimed(now: Time)
    ensures AllTimed([], [], now)
  {
  }

  lemma TimedMore(hits: seq<FullHash>, sources: seq<Source>, more: seq<Source>, now: Time)
    requires AllTimed(hits, sources, now)
    ensures AllTimed(hits, sources + more, now)
  {
    hide Timed;
    forall h | h in hits
      ensures exists s :: s in sources + more && Timed(h, s, now)
    {
      var s :| s in sources && Timed(h, s, now);
      assert s in sources + more;
    }
  }

  lemma {:induction false} MatchingPrefix(hashes: seq<FullHash>, prefix: Prefix)
    ensures forall h :: h in Matching(hashes, prefix) ==> PrefixOf(h) == prefix && h in hashes
  {
    if hashes != [] {
      MatchingPrefix(hashes[1..], prefix);
    }
  }

  /** The hashes of one entry, with the seconds it has left. */
  lemma TimedHit(hits: seq<FullHash>, sources: seq<Source>, entry: CacheEntry, f: Fetch, now: Time)
    requires AllTimed(hits, sources, now) && Supplies(f, entry)
    ensures AllTimed(hits + WithSeconds(entry.fullHashes, RemainingSeconds(now, entry.expiresAt)),
                     sources + [Source(entry.prefix, f)], now)
  {
    hide RemainingSeconds, Matching;
    var source, seconds := Source(entry.prefix, f), RemainingSeconds(now, entry.expiresAt);
    TimedMore(hits, sources, [source], now);
    MatchingPrefix(f.answer.fullHashes, entry.prefix);
    var more := WithSeconds(entry.fullHashes, seconds);
    forall h | h in more
      ensures Timed(h, source, now)
    {
      var k :| 0 <= k < |more| && more[k] == h;
      assert entry.fullHashes[k] in entry.fullHashes && h == entry.fullHashes[k].(cacheSeconds := seconds);
    }
    assert source in sources + [source];
  }

  /** The hashes upstream has just answered with. */
  lemma TimedOwn(hits: seq<FullHash>, sources: seq<Source>, f: Fetch)
    requires AllTimed(hits, sources, f.at) && !HasForeign(f.answer.fullHashes, f.asked)
    ensures AllTimed(hits + f.answer.fullHashes, sources + OwnSources(f, f.asked), f.at)
  {
    hide RemainingSeconds;
    var own := OwnSources(f, f.asked);
    TimedMore(hits, sources, own, f.at);
    forall h | h in f.answer.fullHashes
      ensures exists s :: s in sources + own && Timed(h, s, f.at)
    {
      var i :| 0 <= i < |f.asked| && f.asked[i] == PrefixOf(h);
      assert own[i] == Source(f.asked[i], f) && own[i] in own;
      assert Timed(h, own[i], f.at);
    }
  }

  /** The prefixes are, up to order, those with a source and those still missing. */
  ghost predicate Covers(sources: seq<Source>, missing: seq<Prefix>, prefixes: seq<Prefix>) {
    multiset(PrefixesOf(sources)) + multiset(missing) == multiset(prefixes)
  }

  lemma {:induction false} CollectedAppend(sources: seq<Source>, s: Source)
    ensures Collected(sources + [s]) == Collected(sources) + PartOf(s.fetch.answer.fullHashes, s.prefix)
    ensures PrefixesOf(sources + [s]) == PrefixesOf(sources) + [s.prefix]
  {
    assert (sources + [s])[..|sources|] == sources;
  }

  /** A lookup's own fetch supplies all the prefixes it asked for. */
  ghost function OwnSources(f: Fetch, prefixes: seq<Prefix>): seq<Source> {
    seq(|prefixes|, i requires 0 <= i < |prefixes| => Source(prefixes[i], f))
  }

  lemma SumAssociates(a: multiset<FullHash>, b: multiset<FullHash>, c: multiset<FullHash>)
    ensures (a + b) + c == a + (b + c)
  {
  }

  lemma {:induction false} OwnLast(sources: seq<Source>, f: Fetch, prefixes: seq<Prefix>)
    requires prefixes != []
    ensures var last := |prefixes| - 1;
            sources + OwnSources(f, prefixes)
            == (sources + OwnSources(f, prefixes[..last])) + [Source(prefixes[last], f)]
  {
  }

  lemma {:induction false} CollectedOwn(sources: seq<Source>, f: Fetch, prefixes: seq<Prefix>)
    ensures Collected(sources + OwnSources(f, prefixes))
         == Collected(sources) + PartsOf(f.answer.fullHashes, prefixes)
  {
    if prefixes == [] {
      assert sources + OwnSources(f, prefixes) == sources;
      assert PartsOf(f.answer.fullHashes, []) == multiset{};
    } else {
      hide PartOf, PartsOf, Collected, PrefixesOf, OwnSources;
      var last := |prefixes| - 1;
      var s, before := Source(prefixes[last], f), sources + OwnSources(f, prefixes[..last]);
      CollectedOwn(sources, f, prefixes[..last]);
      OwnLast(sources, f, prefixes);
      CollectedAppend(before, s);
      PartsLast(f.answer.fullHashes, prefixes);
      SumAssociates(Collected(sources), PartsOf(f.answer.fullHashes, prefixes[..last]),
        PartOf(f.answer.fullHashes, s.prefix));
    }
  }

  lemma {:induction false} OwnPrefixes(sources: seq<Source>, f: Fetch, prefixes: seq<Prefix>)
    ensures PrefixesOf(sources + OwnSources(f, prefixes)) == PrefixesOf(sources) + prefixes
  {
  }

  lemma JustifiedSubset(small: seq<CacheEntry>, big: seq<CacheEntry>, log: seq<Fetch>)
    requires AllJustified(big, log) && forall e :: e in small ==> e in big
    ensures AllJustified(small, log)
  {
    hide Justified;
    forall i | 0 <= i < |small|
      ensures Justified(small[i], log)
    {
      assert small[i] in small;
      var k :| 0 <= k < |big| && big[k] == small[i];
    }
  }

  lemma JustifiedLater(contents: seq<CacheEntry>, log: seq<Fetch>, later: seq<Fetch>)
    requires AllJustified(contents, log) && log <= later
    ensures AllJustified(contents, later)
  {
    forall i | 0 <= i < |contents|
      ensures Justified(contents[i], later)
    {
      assert Justified(contents[i], log);
      var f :| f in log && Supplies(f, contents[i]);
      assert f in later;
    }
  }

  lemma UsableLater(sources: seq<Source>, log: seq<Fetch>, later: seq<Fetch>, now: Time, s: Uint32, s': Uint32)
    requires AllUsable(sources, log, now, s) && log <= later && s' <= s
    ensures AllUsable(sources, later, now, s')
  {
    forall i | 0 <= i < |sources|
      ensures Usable(sources[i], later, now, s')
    {
      assert Usable(sources[i], log, now, s) && sources[i].fetch in later;
    }
  }

  // ----- One turn of the first loop of a lookup -----

  function Min(a: Uint32, b: Uint32): Uint32 {
    if a < b then a else b
  }

  lemma NoSources(contents: seq<CacheEntry>, log: seq<Fetch>, now: Time, seconds: Uint32)
    ensures Answers([], []) && Covers([], [], []) && Least([], now) == MAX_UINT32
    ensures AllUsable([], log, now, seconds) && Distinct([])
    ensures AfterGets(contents, [], now) == contents && Missing(contents, [], now) == []
  {
  }

  lemma WithSecondsIsBare(hashes: seq<FullHash>, seconds: Uint32)
    ensures Bare(WithSeconds(hashes, seconds)) == Bare(hashes)
  {
  }

  /** The seconds left of the source that expires first. */
  ghost function Least(sources: seq<Source>, now: Time): Uint32 {
    if sources == [] then MAX_UINT32
    else
      var last := |sources| - 1;
      Min(RemainingSeconds(now, FetchExpiry(sources[last].fetch)), Least(sources[..last], now))
  }

  /** The seconds a lookup reports. The largest 32-bit number is what the minimum starts from, and is reported as
      zero. */
  function Reported(least: Uint32): Uint32 {
    if least != MAX_UINT32 then least else 0
  }

  /** The report is exact unless the least remaining time reaches 2^32 - 1 seconds. */
  lemma ReportedIsLeast(least: Uint32)
    ensures Reported(least) == least <==> least != MAX_UINT32
    ensures Reported(least) <= least
  {
  }

  lemma {:induction false} LeastAppend(sources: seq<Source>, s: Source, now: Time)
    ensures Least(sources + [s], now) == Min(RemainingSeconds(now, FetchExpiry(s.fetch)), Least(sources, now))
  {
    assert (sources + [s])[..|sources|] == sources;
  }

  lemma {:induction false} LeastOwn(sources: seq<Source>, f: Fetch, prefixes: seq<Prefix>)
    ensures Least(sources + OwnSources(f, prefixes), f.at)
         == if prefixes == [] then Least(sources, f.at) else Min(f.answer.cacheSeconds, Least(sources, f.at))
  {
    if prefixes == [] {
      assert sources + OwnSources(f, prefixes) == sources;
    } else {
      var last := |prefixes| - 1;
      LeastOwn(sources, f, prefixes[..last]);
      OwnLast(sources, f, prefixes);
      LeastAppend(sources + OwnSources(f, prefixes[..last]), Source(prefixes[last], f), f.at);
      assert RemainingSeconds(f.at, FetchExpiry(f)) == f.answer.cacheSeconds;
    }
  }

  /** A live entry with its supplier becomes one more source. */
  lemma {:induction false} HitStep(sources: seq<Source>, hits: seq<FullHash>, log: seq<Fetch>, now: Time,
                                   seconds: Uint32, entry: CacheEntry, f: Fetch)
    requires AllUsable(sources, log, now, seconds) && Answers(hits, sources) && seconds == Least(sources, now)
    requires f in log && Supplies(f, entry) && now < entry.expiresAt
    ensures var s := RemainingSeconds(now, entry.expiresAt);
            var more := sources + [Source(entry.prefix, f)];
            && AllUsable(more, log, now, Min(s, seconds))
            && Answers(hits + WithSeconds(entry.fullHashes, s), more)
            && Min(s, seconds) == Least(more, now)
  {
    LeastAppend(sources, Source(entry.prefix, f), now);
    var s := RemainingSeconds(now, entry.expiresAt);
    var source := Source(entry.prefix, f);
    var more := sources + [source];
    UsableLater(sources, log, log, now, seconds, Min(s, seconds));
    assert Usable(source, log, now, Min(s, seconds));
    assert forall i :: 0 <= i < |more| ==> more[i] == if i < |sources| then sources[i] else source;
    HitHashes(sources, hits, source, entry.fullHashes, s);
  }

  lemma {:induction false} HitHashes(sources: seq<Source>, hits: seq<FullHash>, source: Source,
                                     hashes: seq<FullHash>, s: Uint32)
    requires multiset(Bare(hits)) == Collected(sources)
    requires hashes == Matching(source.fetch.answer.fullHashes, source.prefix)
    ensures multiset(Bare(hits + WithSeconds(hashes, s))) == Collected(sources + [source])
    ensures PrefixesOf(sources + [source]) == PrefixesOf(sources) + [source.prefix]
  {
    hide Matching, Bare, Collected, PrefixesOf;
    CollectedAppend(sources, source);
    BareAppend(hits, WithSeconds(hashes, s));
    WithSecondsIsBare(hashes, s);
  }

  lemma {:induction false} LiveSupplier(contents: seq<CacheEntry>, prefix: Prefix, now: Time, log: seq<Fetch>)
    returns (f: Fetch)
    requires Live(contents, prefix, now) && AllJustified(contents, log)
    ensures var i := Find(contents, prefix);
            && i < |contents| && contents[i].prefix == prefix && now < contents[i].expiresAt
            && f in log && Supplies(f, contents[i])
  {
    var i := Find(contents, prefix);
    assert Justified(contents[i], log);
    f :| f in log && Supplies(f, contents[i]);
  }

  /** One more prefix, found or missing. */
  lemma {:induction false} MissingStep(sources: seq<Source>, missing: seq<Prefix>, unique: seq<Prefix>, i: nat)
    requires i < |unique| && Covers(sources, missing, unique[..i])
    requires Distinct(unique[..i]) ==> Distinct(missing)
    ensures Distinct(unique[..i + 1]) ==> Distinct(missing + [unique[i]]) && Distinct(missing)
    ensures Covers(sources, missing + [unique[i]], unique[..i + 1])
    ensures forall f :: Covers(sources + [Source(unique[i], f)], missing, unique[..i + 1])
  {
    hide Distinct, PrefixesOf;
    var p := unique[i];
    assert unique[..i + 1] == unique[..i] + [p];
    if p in missing {
      assert p in multiset(missing) && p in multiset(unique[..i]);
    }
    DistinctMore(unique[..i], p);
    DistinctMore(missing, p);
    forall f
      ensures PrefixesOf(sources + [Source(p, f)]) == PrefixesOf(sources) + [p]
    {
      CollectedAppend(sources, Source(p, f));
    }
  }

  lemma {:induction false} DistinctMore(prefixes: seq<Prefix>, p: Prefix)
    ensures Distinct(prefixes + [p]) <==> Distinct(prefixes) && p !in prefixes
  {
    assert (prefixes + [p])[..|prefixes|] == prefixes;
  }

  lemma {:induction false} AloneStep(start: seq<CacheEntry>, contents: seq<CacheEntry>, unique: seq<Prefix>, i: nat,
                                     now: Time)
    requires i < |unique| && DistinctPrefixes(contents)
    requires contents == AfterGets(start, unique[..i], now)
    requires forall q :: Live(contents, q, now) == Live(start, q, now)
    ensures AfterGet(contents, unique[i], now) == AfterGets(start, unique[..i + 1], now)
    ensures forall q :: Live(AfterGet(contents, unique[i], now), q, now) == Live(start, q, now)
    ensures Missing(start, unique[..i + 1], now)
         == Missing(start, unique[..i], now) + if Live(contents, unique[i], now) then [] else [unique[i]]
  {
    hide AfterGet, Live, DistinctPrefixes;
    assert unique[..i + 1][..i] == unique[..i];
    forall q
      ensures Live(AfterGet(contents, unique[i], now), q, now) == Live(start, q, now)
    {
      GetKeepsLive(contents, unique[i], now, q);
    }
  }

  // ----- A whole lookup that runs alone -----

  ghost predicate HasForeign(hashes: seq<FullHash>, asked: seq<Prefix>) {
    exists i :: 0 <= i < |hashes| && PrefixOf(hashes[i]) !in asked
  }

  /** What a lookup leaves in the cache, which fetches it logs, and whether it succeeds. */
  ghost function Outcome(contents: seq<CacheEntry>, log: seq<Fetch>, prefixes: seq<Prefix>, now: Time,
                         upstream: seq<Prefix> -> Option<LookupResult>, maxEntries: nat)
    : (seq<CacheEntry>, seq<Fetch>, bool)
  {
    var unique := Unique(prefixes);
    var missing := Missing(contents, unique, now);
    var looked := AfterGets(contents, unique, now);
    if !(1 <= |prefixes| <= MAX_PREFIXES) then (contents, log, false)
    else if missing == [] then (looked, log, true)
    else
      match upstream(missing)
      case None => (looked, log, false)
      case Some(answer) =>
        var logged := log + [Fetch(now, missing, answer)];
        if HasForeign(answer.fullHashes, missing) then (looked, logged, false)
        else
          var expiresAt := ExpiryOf(now, answer.cacheSeconds);
          (AfterPuts(looked, missing, answer.fullHashes, expiresAt, maxEntries), logged, true)
  }

  /** A lookup may use what it has just fetched. */
  lemma OwnUsable(sources: seq<Source>, log: seq<Fetch>, now: Time, seconds: Uint32, f: Fetch)
    requires AllUsable(sources, log, now, seconds) && f.at == now
    ensures AllUsable(sources + OwnSources(f, f.asked), log + [f], now, Min(f.answer.cacheSeconds, seconds))
  {
    var more, least := sources + OwnSources(f, f.asked), Min(f.answer.cacheSeconds, seconds);
    UsableLater(sources, log, log + [f], now, seconds, least);
    assert f in log + [f];
    forall i | 0 <= i < |more|
      ensures Usable(more[i], log + [f], now, least)
    {
      assert i < |sources| ==> more[i] == sources[i];
      assert i >= |sources| ==> more[i] == Source(f.asked[i - |sources|], f);
    }
  }

  /** A lookup's own fetch completes its sources. */
  lemma {:induction false} FetchStep(sources: seq<Source>, hits: seq<FullHash>, log: seq<Fetch>, now: Time,
                                     seconds: Uint32, f: Fetch, prefixes: seq<Prefix>)
    requires AllUsable(sources, log, now, seconds) && Answers(hits, sources) && Covers(sources, f.asked, prefixes)
    requires f.at == now && f.asked != [] && seconds == Least(sources, now)
    requires Distinct(f.asked) && !HasForeign(f.answer.fullHashes, f.asked)
    ensures var more := sources + OwnSources(f, f.asked);
            && AllUsable(more, log + [f], now, Min(f.answer.cacheSeconds, seconds))
            && Answers(hits + f.answer.fullHashes, more)
            && Covers(more, [], prefixes)
            && Min(f.answer.cacheSeconds, seconds) == Least(more, now)
  {
    hide Bare, Collected, PrefixesOf, Distinct, PrefixOf, Least, AllUsable, OwnSources;
    LeastOwn(sources, f, f.asked);
    OwnUsable(sources, log, now, seconds, f);
    CollectedOwn(sources, f, f.asked);
    OwnPrefixes(sources, f, f.asked);
    PartsAreWhole(f.answer.fullHashes, f.asked);
    BareAppend(hits, f.answer.fullHashes);
  }

  // ----- The cache refines a stable upstream -----

  ghost function TruthFor(truth: Prefix -> multiset<FullHash>, prefixes: seq<Prefix>): multiset<FullHash> {
    if prefixes == [] then multiset{}
    else
      var last := |prefixes| - 1;
      TruthFor(truth, prefixes[..last]) + truth(prefixes[last])
  }

  lemma {:induction false} TruthOfRest(truth: Prefix -> multiset<FullHash>, prefixes: seq<Prefix>, i: nat)
    requires i < |prefixes|
    ensures TruthFor(truth, prefixes) == TruthFor(truth, RemoveAt(prefixes, i)) + truth(prefixes[i])
  {
    var last := |prefixes| - 1;
    if i == last {
      assert RemoveAt(prefixes, i) == prefixes[..last];
    } else {
      TruthOfRest(truth, prefixes[..last], i);
      var r, shorter := RemoveAt(prefixes, i), RemoveAt(prefixes[..last], i);
      assert prefixes[i + 1..] == prefixes[..last][i + 1..] + [prefixes[last]];
      assert r == shorter + [prefixes[last]];
      assert r[..|shorter|] == shorter && r[|shorter|] == prefixes[last];
    }
  }

  lemma TruthLast(truth: Prefix -> multiset<FullHash>, prefixes: seq<Prefix>)
    requires prefixes != []
    ensures var last := |prefixes| - 1;
            TruthFor(truth, prefixes) == TruthFor(truth, prefixes[..last]) + truth(prefixes[last])
  {
  }

  /** The last of a permutation, taken out of both. */
  lemma PermutationRest(a: seq<Prefix>, b: seq<Prefix>) returns (i: nat)
    requires multiset(a) == multiset(b) && a != []
    ensures i < |b| && b[i] == a[|a| - 1]
    ensures multiset(a[..|a| - 1]) == multiset(RemoveAt(b, i))
  {
    hide RemoveAt;
    var last := |a| - 1;
    TakenOut(a, last);
    LastRemoved(a);
    assert a[last] in multiset(a) && a[last] in multiset(b);
    i :| 0 <= i < |b| && b[i] == a[last];
    TakenOut(b, i);
  }

  lemma TakenOut(s: seq<Prefix>, i: nat)
    requires i < |s|
    ensures multiset(RemoveAt(s, i)) == multiset(s) - multiset{s[i]}
  {
    assert s == s[..i] + [s[i]] + s[i + 1..];
  }

  lemma LastRemoved(s: seq<Prefix>)
    requires s != []
    ensures RemoveAt(s, |s| - 1) == s[..|s| - 1]
  {
  }

  lemma {:induction false} TruthOfPermutation(truth: Prefix -> multiset<FullHash>, a: seq<Prefix>, b: seq<Prefix>)
    requires multiset(a) == multiset(b)
    ensures TruthFor(truth, a) == TruthFor(truth, b)
  {
    if a == [] {
      assert |multiset(b)| == |b|;
    } else {
      var last := |a| - 1;
      hide TruthFor;
      var i := PermutationRest(a, b);
      TruthLast(truth, a);
      TruthOfRest(truth, b, i);
      TruthOfPermutation(truth, a[..last], RemoveAt(b, i));
    }
  }

  /** While upstream's answers do not change, a lookup returns exactly what upstream has for its prefixes. */
  lemma {:induction false} RefinesStableUpstream(truth: Prefix -> multiset<FullHash>, log: seq<Fetch>,
                                                 sources: seq<Source>, prefixes: seq<Prefix>, result: LookupResult,
                                                 now: Time)
    requires forall f, p :: f in log && p in f.asked ==> PartOf(f.answer.fullHashes, p) == truth(p)
    requires AllUsable(sources, log, now, result.cacheSeconds)
    requires Covers(sources, [], Unique(prefixes)) && Answers(result.fullHashes, sources)
    ensures multiset(Bare(result.fullHashes)) == TruthFor(truth, Unique(prefixes))
  {
    hide PartOf, Unique, Bare;
    CollectedTruth(truth, log, sources, now, result.cacheSeconds);
    TruthOfPermutation(truth, PrefixesOf(sources), Unique(prefixes));
  }

  lemma {:induction false} CollectedTruth(truth: Prefix -> multiset<FullHash>, log: seq<Fetch>, sources: seq<Source>,
                                          now: Time, seconds: Uint32)
    requires forall f, p :: f in log && p in f.asked ==> PartOf(f.answer.fullHashes, p) == truth(p)
    requires AllUsable(sources, log, now, seconds)
    ensures Collected(sources) == TruthFor(truth, PrefixesOf(sources))
  {
    if sources != [] {
      hide PartOf;
      var last := |sources| - 1;
      CollectedTruth(truth, log, sources[..last], now, seconds);
      var ps := PrefixesOf(sources);
      assert ps[..last] == PrefixesOf(sources[..last]) && ps[last] == sources[last].prefix;
      assert Usable(sources[last], log, now, seconds);
    }
  }
}
