/** What the cache is for: a lookup leaves its prefixes cached, and the next one does not ask upstream. */
module CacheHits {
  import opened Common
  import opened CacheModel

  /** A `get` that is not later than `later` does not change what is live then. */
  lemma {:induction false} GetKeepsLater(contents: seq<CacheEntry>, prefix: Prefix, now: Time, q: Prefix, later: Time)
    requires DistinctPrefixes(contents) && now <= later
    ensures var after := AfterGet(contents, prefix, now);
            DistinctPrefixes(after) && |after| <= |contents| && Live(after, q, later) == Live(contents, q, later)
  {
    hide DistinctPrefixes, Live, AfterGet;
    GetMembers(contents, prefix, now);
    GetIsNoLonger(contents, prefix, now);
    LiveIffMember(contents, q, later);
    LiveIffMember(AfterGet(contents, prefix, now), q, later);
  }

  lemma GetIsNoLonger(contents: seq<CacheEntry>, prefix: Prefix, now: Time)
    ensures |AfterGet(contents, prefix, now)| <= |contents|
  {
  }

  lemma {:induction false} GetsKeepLater(
      contents: seq<CacheEntry>, prefixes: seq<Prefix>, now: Time, q: Prefix, later: Time)
    requires DistinctPrefixes(contents) && now <= later
    ensures var after := AfterGets(contents, prefixes, now);
            DistinctPrefixes(after) && |after| <= |contents| && Live(after, q, later) == Live(contents, q, later)
  {
    hide DistinctPrefixes, Live, AfterGet;
    if prefixes != [] {
      var last := |prefixes| - 1;
      GetsKeepLater(contents, prefixes[..last], now, q, later);
      GetKeepsLater(AfterGets(contents, prefixes[..last], now), prefixes[last], now, q, later);
    }
  }

  /** A `put` with room for it makes its own prefix live until it expires, and leaves the others as they are. */
  lemma {:induction false} PutMakesLive(
      contents: seq<CacheEntry>, entry: CacheEntry, maxEntries: nat, q: Prefix, later: Time)
    requires DistinctPrefixes(contents) && |contents| < maxEntries
    ensures var after := AfterPut(contents, entry, maxEntries);
            && DistinctPrefixes(after) && |after| <= |contents| + 1
            && Live(after, q, later) == if q == entry.prefix then later < entry.expiresAt else Live(contents, q, later)
  {
    hide DistinctPrefixes, Live, Without;
    var rest, after := Without(contents, entry.prefix), AfterPut(contents, entry, maxEntries);
    WithoutIsRest(contents, entry.prefix);
    WithoutIsNoLonger(contents, entry.prefix);
    FrontIsDistinct(entry, rest);
    assert after == [entry] + rest;
    assert forall e :: e in after <==> e == entry || e in rest;
    LiveIffMember(contents, q, later);
    LiveIffMember(after, q, later);
  }

  lemma WithoutIsNoLonger(contents: seq<CacheEntry>, prefix: Prefix)
    ensures |Without(contents, prefix)| <= |contents|
  {
  }

  lemma {:induction false} PutsMakeLive(contents: seq<CacheEntry>, prefixes: seq<Prefix>, hashes: seq<FullHash>,
                                        expiresAt: Time, maxEntries: nat, q: Prefix, later: Time)
    requires DistinctPrefixes(contents) && |contents| + |prefixes| <= maxEntries
    ensures var after := AfterPuts(contents, prefixes, hashes, expiresAt, maxEntries);
            && DistinctPrefixes(after) && |after| <= |contents| + |prefixes|
            && Live(after, q, later) == if q in prefixes then later < expiresAt else Live(contents, q, later)
  {
    hide DistinctPrefixes, Live, AfterPut, Matching;
    if prefixes != [] {
      var front, last := prefixes[..|prefixes| - 1], prefixes[|prefixes| - 1];
      assert prefixes == front + [last];
      PutsMakeLive(contents, front, hashes, expiresAt, maxEntries, q, later);
      PutMakesLive(AfterPuts(contents, front, hashes, expiresAt, maxEntries),
        CacheEntry(last, Matching(hashes, last), expiresAt), maxEntries, q, later);
    }
  }

  /** Exactly the prefixes without a live entry are missing. */
  lemma {:induction false} MissingAre(contents: seq<CacheEntry>, prefixes: seq<Prefix>, now: Time)
    ensures forall p :: p in Missing(contents, prefixes, now) <==> p in prefixes && !Live(contents, p, now)
    ensures |Missing(contents, prefixes, now)| <= |prefixes|
  {
    hide Live;
    if prefixes != [] {
      var front, last := prefixes[..|prefixes| - 1], prefixes[|prefixes| - 1];
      assert prefixes == front + [last];
      MissingAre(contents, front, now);
    }
  }

  /** When nothing is missing, upstream is not asked, whatever it would say. */
  lemma NothingIsAsked(contents: seq<CacheEntry>, log: seq<Fetch>, prefixes: seq<Prefix>, now: Time,
                       upstream: seq<Prefix> -> Option<LookupResult>, maxEntries: nat)
    requires 1 <= |prefixes| <= 30 && forall p :: p in prefixes ==> Live(contents, p, now)
    ensures Outcome(contents, log, prefixes, now, upstream, maxEntries)
         == (AfterGets(contents, Unique(prefixes), now), log, true)
  {
    hide Live, Unique, Missing, AfterGets;
    UniqueIsSet(prefixes);
    MissingAre(contents, Unique(prefixes), now);
    SomeIn(Missing(contents, Unique(prefixes), now));
  }

  lemma SomeIn(prefixes: seq<Prefix>)
    ensures prefixes != [] ==> exists p :: p in prefixes
  {
    if prefixes != [] {
      assert prefixes[0] in prefixes;
    }
  }

  /** With room in the cache, a lookup that succeeds leaves all its prefixes live as long as their answers are, those
      it had and those it asked for, so that the same lookup, as long as that is, succeeds without asking again. */
  lemma SecondLookupAsksNothing(contents: seq<CacheEntry>, log: seq<Fetch>, prefixes: seq<Prefix>, now: Time,
                                upstream: seq<Prefix> -> Option<LookupResult>, maxEntries: nat, later: Time,
                                other: seq<Prefix> -> Option<LookupResult>)
    requires DistinctPrefixes(contents) && |contents| + |Unique(prefixes)| <= maxEntries && now <= later
    requires Outcome(contents, log, prefixes, now, upstream, maxEntries).2
    requires forall p :: p in prefixes && Live(contents, p, now) ==> Live(contents, p, later)
    requires var missing := Missing(contents, Unique(prefixes), now);
             missing != [] && upstream(missing).Some? ==> later < ExpiryOf(now, upstream(missing).value.cacheSeconds)
    ensures var (after, logged, _) := Outcome(contents, log, prefixes, now, upstream, maxEntries);
            && (forall p :: p in prefixes ==> Live(after, p, later))
            && Outcome(after, logged, prefixes, later, other, maxEntries)
               == (AfterGets(after, Unique(prefixes), later), logged, true)
  {
    hide Live, Unique, Missing, AfterGets, AfterPuts, DistinctPrefixes, ExpiryOf, HasForeign;
    var unique := Unique(prefixes);
    var missing, looked := Missing(contents, unique, now), AfterGets(contents, unique, now);
    UniqueIsSet(prefixes);
    MissingAre(contents, unique, now);
    var (after, logged, _) := Outcome(contents, log, prefixes, now, upstream, maxEntries);
    forall p | p in prefixes
      ensures Live(after, p, later)
    {
      GetsKeepLater(contents, unique, now, p, later);
      if missing != [] {
        var answer := upstream(missing).value;
        PutsMakeLive(looked, missing, answer.fullHashes, ExpiryOf(now, answer.cacheSeconds), maxEntries, p, later);
      }
    }
    WithinLimit(prefixes, contents, log, now, upstream, maxEntries);
    NothingIsAsked(after, logged, prefixes, later, other, maxEntries);
  }

  lemma WithinLimit(prefixes: seq<Prefix>, contents: seq<CacheEntry>, log: seq<Fetch>, now: Time,
                    upstream: seq<Prefix> -> Option<LookupResult>, maxEntries: nat)
    requires Outcome(contents, log, prefixes, now, upstream, maxEntries).2
    ensures 1 <= |prefixes| <= 30
  {
    hide Unique, Missing, AfterGets, AfterPuts;
  }
}
