/** The Safe Browsing cache: a map of list elements and a recency list, and lookups through it. */
module Cache {
  import opened Common
  import opened CacheModel

  /** An element of the recency list. */
  class Element {
    var value: CacheEntry

    constructor (value: CacheEntry)
      ensures this.value == value
    {
      this.value := value;
    }
  }

  ghost predicate DistinctElements(lru: seq<Element>) {
    forall i, j :: 0 <= i < j < |lru| ==> lru[i] != lru[j]
  }

  /** Each prefix of the list is mapped to its element. */
  ghost predicate Indexed(entries: map<Prefix, Element>, lru: seq<Element>, contents: seq<CacheEntry>)
    requires |contents| == |lru|
  {
    forall i :: 0 <= i < |lru| ==> contents[i].prefix in entries && entries[contents[i].prefix] == lru[i]
  }

  /** Each key of the map is on the list. */
  ghost predicate Listed(entries: map<Prefix, Element>, contents: seq<CacheEntry>) {
    forall p :: p in entries ==> Find(contents, p) < |contents|
  }

  /** The map and the list are in bijection, with matching prefixes. */
  ghost predicate Linked(entries: map<Prefix, Element>, lru: seq<Element>, contents: seq<CacheEntry>) {
    && |contents| == |lru| && DistinctElements(lru) && DistinctPrefixes(contents)
    && Indexed(entries, lru, contents) && Listed(entries, contents)
  }

  lemma PositionIsFind(
      entries: map<Prefix, Element>, lru: seq<Element>, contents: seq<CacheEntry>, prefix: Prefix, i: nat)
    requires Linked(entries, lru, contents) && prefix in entries && i < |lru| && lru[i] == entries[prefix]
    ensures i == Find(contents, prefix) && contents[i].prefix == prefix
  {
  }

  lemma LinkedFacts(entries: map<Prefix, Element>, lru: seq<Element>, contents: seq<CacheEntry>, prefix: Prefix)
    requires Linked(entries, lru, contents)
    ensures |contents| == |lru|
    ensures prefix in entries ==> entries[prefix] in lru
    ensures prefix in entries <==> Find(contents, prefix) < |contents|
  {
  }

  lemma RemovedAt<T>(s: seq<T>, i: nat, k: nat)
    requires i < |s| && k < |s| - 1
    ensures |RemoveAt(s, i)| == |s| - 1 && RemoveAt(s, i)[k] == s[if k < i then k else k + 1]
  {
  }

  lemma RemoveKeepsDistinct(lru: seq<Element>, contents: seq<CacheEntry>, i: nat)
    requires i < |lru| == |contents| && DistinctPrefixes(contents) && DistinctElements(lru)
    ensures DistinctPrefixes(RemoveAt(contents, i)) && DistinctElements(RemoveAt(lru, i))
    ensures forall k :: 0 <= k < |lru| - 1 ==> RemoveAt(contents, i)[k].prefix != contents[i].prefix
  {
    var l, c := RemoveAt(lru, i), RemoveAt(contents, i);
    forall k | 0 <= k < |l|
      ensures l[k] == lru[if k < i then k else k + 1] && c[k] == contents[if k < i then k else k + 1]
    {
    }
  }

  lemma IndexedRemove(entries: map<Prefix, Element>, lru: seq<Element>, contents: seq<CacheEntry>, i: nat)
    requires |contents| == |lru| && Indexed(entries, lru, contents) && i < |lru|
    requires forall k :: 0 <= k < |lru| - 1 ==> RemoveAt(contents, i)[k].prefix != contents[i].prefix
    ensures Indexed(entries - {contents[i].prefix}, RemoveAt(lru, i), RemoveAt(contents, i))
  {
    var l, c, m := RemoveAt(lru, i), RemoveAt(contents, i), entries - {contents[i].prefix};
    forall k | 0 <= k < |l|
      ensures c[k].prefix in m && m[c[k].prefix] == l[k]
    {
      RemovedAt(lru, i, k);
      RemovedAt(contents, i, k);
    }
  }

  /** An entry for another prefix is still found. */
  lemma StillFound(contents: seq<CacheEntry>, i: nat, p: Prefix)
    requires i < |contents| && Find(contents, p) < |contents| && p != contents[i].prefix
    ensures Find(RemoveAt(contents, i), p) < |RemoveAt(contents, i)|
  {
    hide RemoveAt, Find;
    var j := Find(contents, p);
    var k := if j < i then j else j - 1;
    RemovedAt(contents, i, k);
    FindPresent(RemoveAt(contents, i), k);
  }

  lemma ListedRemove(entries: map<Prefix, Element>, contents: seq<CacheEntry>, i: nat)
    requires Listed(entries, contents) && i < |contents|
    ensures Listed(entries - {contents[i].prefix}, RemoveAt(contents, i))
  {
    hide RemoveAt, Find;
    forall p | p in entries - {contents[i].prefix}
      ensures Find(RemoveAt(contents, i), p) < |RemoveAt(contents, i)|
    {
      StillFound(contents, i, p);
    }
  }

  lemma LinkedRemove(entries: map<Prefix, Element>, lru: seq<Element>, contents: seq<CacheEntry>, i: nat)
    requires Linked(entries, lru, contents) && i < |lru|
    ensures Linked(entries - {contents[i].prefix}, RemoveAt(lru, i), RemoveAt(contents, i))
  {
    hide DistinctPrefixes, DistinctElements, Indexed, Listed;
    RemoveKeepsDistinct(lru, contents, i);
    IndexedRemove(entries, lru, contents, i);
    ListedRemove(entries, contents, i);
  }

  lemma FindPresent(contents: seq<CacheEntry>, i: nat)
    requires i < |contents|
    ensures Find(contents, contents[i].prefix) <= i
  {
  }

  lemma PushKeepsDistinct(lru: seq<Element>, contents: seq<CacheEntry>, element: Element, e: CacheEntry)
    requires |contents| == |lru| && DistinctPrefixes(contents) && DistinctElements(lru) && element !in lru
    requires forall i :: 0 <= i < |contents| ==> contents[i].prefix != e.prefix
    ensures DistinctElements([element] + lru) && DistinctPrefixes([e] + contents)
  {
    assert forall k :: 0 < k < |lru| + 1 ==> ([element] + lru)[k] == lru[k - 1];
    FrontIsDistinct(e, contents);
  }

  lemma ListedPush(entries: map<Prefix, Element>, contents: seq<CacheEntry>, element: Element, e: CacheEntry)
    requires Listed(entries, contents)
    ensures Listed(entries[e.prefix := element], [e] + contents)
  {
    var c := [e] + contents;
    forall p | p in entries[e.prefix := element]
      ensures Find(c, p) < |c|
    {
      FindPresent(c, if p == e.prefix then 0 else 1 + Find(contents, p));
    }
  }

  lemma LinkedPush(
      entries: map<Prefix, Element>, lru: seq<Element>, contents: seq<CacheEntry>, element: Element, e: CacheEntry)
    requires Linked(entries, lru, contents) && e.prefix !in entries && element !in lru
    ensures Linked(entries[e.prefix := element], [element] + lru, [e] + contents)
  {
    hide DistinctPrefixes, DistinctElements, Listed;
    PushKeepsDistinct(lru, contents, element, e);
    ListedPush(entries, contents, element, e);
    forall k | 0 < k < |lru| + 1
      ensures ([element] + lru)[k] == lru[k - 1] && ([e] + contents)[k] == contents[k - 1]
    {
    }
  }

  /** The value of an element is replaced. */
  lemma LinkedReplace(
      entries: map<Prefix, Element>, lru: seq<Element>, contents: seq<CacheEntry>, i: nat, e: CacheEntry)
    requires Linked(entries, lru, contents) && i < |lru| && contents[i].prefix == e.prefix
    ensures Linked(entries, [lru[i]] + RemoveAt(lru, i), [e] + RemoveAt(contents, i))
  {
    LinkedRemove(entries, lru, contents, i);
    LinkedPush(entries - {e.prefix}, RemoveAt(lru, i), RemoveAt(contents, i), lru[i], e);
    assert (entries - {e.prefix})[e.prefix := lru[i]] == entries;
  }

  lemma LinkedDropLast(entries: map<Prefix, Element>, lru: seq<Element>, contents: seq<CacheEntry>)
    requires Linked(entries, lru, contents) && lru != []
    ensures var last := |lru| - 1;
            Linked(entries - {contents[last].prefix}, lru[..last], contents[..last])
  {
    var last := |lru| - 1;
    LinkedRemove(entries, lru, contents, last);
    assert RemoveAt(lru, last) == lru[..last] && RemoveAt(contents, last) == contents[..last];
  }

  lemma GetCases(contents: seq<CacheEntry>, prefix: Prefix, now: Time)
    ensures var i := Find(contents, prefix);
            && (i < |contents| && now < contents[i].expiresAt
                ==> Live(contents, prefix, now)
                    && AfterGet(contents, prefix, now) == [contents[i]] + RemoveAt(contents, i))
            && (i < |contents| && now >= contents[i].expiresAt
                ==> !Live(contents, prefix, now) && AfterGet(contents, prefix, now) == RemoveAt(contents, i))
            && (i >= |contents| ==> !Live(contents, prefix, now) && AfterGet(contents, prefix, now) == contents)
  {
  }

  /** The elements carry these values, in order. */
  ghost predicate Holds(lru: seq<Element>, contents: seq<CacheEntry>)
    reads lru
  {
    |lru| == |contents| && forall i :: 0 <= i < |lru| ==> lru[i].value == contents[i]
  }

  lemma HoldsAt(lru: seq<Element>, contents: seq<CacheEntry>, i: nat)
    requires Holds(lru, contents) && i < |lru|
    ensures i < |contents| && lru[i].value == contents[i]
  {
  }

  lemma HoldsRemove(lru: seq<Element>, contents: seq<CacheEntry>, i: nat)
    requires Holds(lru, contents) && i < |lru|
    ensures Holds(RemoveAt(lru, i), RemoveAt(contents, i))
  {
  }

  lemma HoldsPush(lru: seq<Element>, contents: seq<CacheEntry>, element: Element, e: CacheEntry)
    requires Holds(lru, contents) && element.value == e
    ensures Holds([element] + lru, [e] + contents)
  {
  }

  lemma HoldsDropLast(lru: seq<Element>, contents: seq<CacheEntry>)
    requires Holds(lru, contents) && lru != []
    ensures Holds(lru[..|lru| - 1], contents[..|contents| - 1])
  {
  }

  /** Each prefix is mapped to its hashes, in order; a prefix without hashes is absent. */
  ghost predicate IsGrouping(matches: map<Prefix, seq<FullHash>>, hashes: seq<FullHash>) {
    forall p: Prefix :: (if p in matches then matches[p] else []) == Matching(hashes, p)
  }

  lemma GroupingAppend(matches: map<Prefix, seq<FullHash>>, hashes: seq<FullHash>, h: FullHash)
    requires IsGrouping(matches, hashes)
    ensures var p := PrefixOf(h);
            IsGrouping(matches[p := (if p in matches then matches[p] else []) + [h]], hashes + [h])
  {
    hide Matching;
    forall p: Prefix
      ensures Matching(hashes + [h], p) == Matching(hashes, p) + if PrefixOf(h) == p then [h] else []
    {
      MatchingAppend(hashes, h, p);
    }
  }

  lemma UniqueAppend(prefixes: seq<Prefix>, p: Prefix)
    ensures Unique(prefixes + [p]) == Unique(prefixes) + if p in prefixes then [] else [p]
  {
    assert (prefixes + [p])[..|prefixes|] == prefixes;
  }

  lemma NoneUnique()
    ensures Unique([]) == []
  {
  }

  method DeduplicatePrefixes(prefixes: seq<Prefix>) returns (r: Option<seq<Prefix>>)
    ensures r == if 1 <= |prefixes| <= MAX_PREFIXES then Some(Unique(prefixes)) else None
    ensures r.None? <==> prefixes == [] || |prefixes| > 30
  {
    if |prefixes| < 1 || |prefixes| > MAX_PREFIXES {
      return None;
    }
    hide Unique;
    NoneUnique();
    var seen: set<Prefix>, unique: seq<Prefix> := {}, [];
    for i := 0 to |prefixes|
      invariant unique == Unique(prefixes[..i])
      invariant seen == set p | p in prefixes[..i]
    {
      assert prefixes[..i + 1] == prefixes[..i] + [prefixes[i]];
      UniqueAppend(prefixes[..i], prefixes[i]);
      if prefixes[i] !in seen {
        seen := seen + {prefixes[i]};
        unique := unique + [prefixes[i]];
      }
    }
    assert prefixes[..|prefixes|] == prefixes;
    return Some(unique);
  }

  /** The answer sorted by prefix, unless it holds a hash that was not asked for. */
  method GroupByPrefix(hashes: seq<FullHash>, missing: seq<Prefix>) returns (r: Option<map<Prefix, seq<FullHash>>>)
    ensures r.None? <==> HasForeign(hashes, missing)
    ensures r.Some? ==> IsGrouping(r.value, hashes)
  {
    hide IsGrouping;
    var missingSet := set p | p in missing;
    var matches: map<Prefix, seq<FullHash>> := map[];
    assert IsGrouping(matches, hashes[..0]) by {
      EmptyGrouping();
    }
    for i := 0 to |hashes|
      invariant IsGrouping(matches, hashes[..i])
      invariant forall k :: 0 <= k < i ==> PrefixOf(hashes[k]) in missing
    {
      var prefix := PrefixOf(hashes[i]);
      if prefix !in missingSet {
        return None;
      }
      GroupingAppend(matches, hashes[..i], hashes[i]);
      assert hashes[..i + 1] == hashes[..i] + [hashes[i]];
      matches := matches[prefix := (if prefix in matches then matches[prefix] else []) + [hashes[i]]];
    }
    assert hashes[..|hashes|] == hashes;
    return Some(matches);
  }

  lemma EmptyGrouping()
    ensures IsGrouping(map[], [])
  {
  }

  /** FetchStep, when the answer turns out to hold no foreign hash. */
  lemma FetchStepIfOwn(sources: seq<Source>, hits: seq<FullHash>, log: seq<Fetch>, now: Time, seconds: Uint32, f: Fetch,
                      prefixes: seq<Prefix>)
    requires AllUsable(sources, log, now, seconds) && Answers(hits, sources) && Covers(sources, f.asked, prefixes)
    requires f.at == now && f.asked != [] && seconds == Least(sources, now) && Distinct(f.asked)
    ensures var more := sources + OwnSources(f, f.asked);
            !HasForeign(f.answer.fullHashes, f.asked) ==>
              && AllUsable(more, log + [f], now, Min(f.answer.cacheSeconds, seconds))
              && Answers(hits + f.answer.fullHashes, more)
              && Covers(more, [], prefixes)
              && Min(f.answer.cacheSeconds, seconds) == Least(more, now)
  {
    hide HasForeign, Least, AllUsable, Answers, Covers, OwnSources, Distinct;
    if !HasForeign(f.answer.fullHashes, f.asked) {
      FetchStep(sources, hits, log, now, seconds, f, prefixes);
    }
  }

  class Cache {
    const maxEntries: nat
    var entries: map<Prefix, Element>
    var lru: seq<Element>
    /** The values along the list. */
    ghost var contents: seq<CacheEntry>
    /** Every answer upstream has given. */
    ghost var log: seq<Fetch>
    /** The elements this cache has made. */
    ghost var elements: set<Element>

    ghost predicate Valid()
      reads this, elements
    {
      && 0 < maxEntries
      && (forall e :: e in lru ==> e in elements)
      && |lru| <= maxEntries
      && Linked(entries, lru, contents)
      && Holds(lru, contents)
      && AllJustified(contents, log)
    }

    constructor (limit: int)
      ensures Valid() && contents == [] && log == [] && elements == {}
      ensures maxEntries == if limit <= 0 then 4096 else limit
    {
      maxEntries := if limit <= 0 then DEFAULT_CACHE_ENTRIES else limit;
      entries, lru, contents, log, elements := map[], [], [], [], {};
    }

    /** The position of an element; container/list follows its links instead. */
    method PositionOf(element: Element) returns (i: nat)
      requires element in lru
      ensures i < |lru| && lru[i] == element
    {
      i := 0;
      while lru[i] != element
        invariant i < |lru| && element in lru[i..]
        decreases |lru| - i
      {
        i := i + 1;
      }
    }

    method Get(prefix: Prefix, now: Time) returns (hashes: seq<FullHash>, seconds: Uint32, ok: bool)
      requires Valid()
      modifies this
      ensures Valid() && log == old(log)
      ensures contents == AfterGet(old(contents), prefix, now)
      ensures elements == old(elements)
      ensures ok == Live(old(contents), prefix, now)
      ensures ok ==>
        var entry := old(contents)[Find(old(contents), prefix)];
        && hashes == WithSeconds(entry.fullHashes, seconds)
        && seconds == RemainingSeconds(now, entry.expiresAt)
    {
      hide Linked, AllJustified, Find, DistinctPrefixes, Holds, AfterGet, Live;
      hashes, seconds, ok := [], 0, false;
      LinkedFacts(entries, lru, contents, prefix);
      GetCases(contents, prefix, now);
      if prefix !in entries {
        return;
      }
      var element := entries[prefix];
      var entry := element.value;
      var i := PositionOf(element);
      PositionIsFind(entries, lru, contents, prefix, i);
      HoldsAt(lru, contents, i);
      HoldsRemove(lru, contents, i);
      if now >= entry.expiresAt {
        LinkedRemove(entries, lru, contents, i);
        JustifiedSubset(RemoveAt(contents, i), contents, log);
        lru := RemoveAt(lru, i);
        entries := entries - {prefix};
        contents := RemoveAt(contents, i);
        return;
      }
      LinkedReplace(entries, lru, contents, i, contents[i]);
      HoldsPush(RemoveAt(lru, i), RemoveAt(contents, i), element, contents[i]);
      JustifiedSubset([contents[i]] + RemoveAt(contents, i), contents, log);
      lru := [element] + RemoveAt(lru, i);
      contents := [contents[i]] + RemoveAt(contents, i);
      seconds := RemainingSeconds(now, entry.expiresAt);
      hashes := WithSeconds(entry.fullHashes, seconds);
      ok := true;
    }

    method Put(prefix: Prefix, hashes: seq<FullHash>, expiresAt: Time)
      requires Valid() && Justified(CacheEntry(prefix, hashes, expiresAt), log)
      modifies this, elements
      ensures Valid() && log == old(log)
      ensures contents == AfterPut(old(contents), CacheEntry(prefix, hashes, expiresAt), maxEntries)
      ensures fresh(elements - old(elements))
    {
      hide Linked, AllJustified, Justified, Find, DistinctPrefixes, Holds;
      var entry := CacheEntry(prefix, hashes, expiresAt);
      LinkedFacts(entries, lru, contents, prefix);
      PutJustified(contents, entry, log);
      if prefix in entries {
        var existing := entries[prefix];
        var i := PositionOf(existing);
        PositionIsFind(entries, lru, contents, prefix, i);
        LinkedReplace(entries, lru, contents, i, entry);
        ElementsDiffer(entries, lru, contents, i);
        HoldsRemove(lru, contents, i);
        existing.value := entry;
        HoldsPush(RemoveAt(lru, i), RemoveAt(contents, i), existing, entry);
        lru := [existing] + RemoveAt(lru, i);
        contents := [entry] + RemoveAt(contents, i);
      } else {
        var element := new Element(entry);
        LinkedPush(entries, lru, contents, element, entry);
        HoldsPush(lru, contents, element, entry);
        entries, elements := entries[prefix := element], elements + {element};
        lru := [element] + lru;
        contents := [entry] + contents;
      }
      Evict();
    }

    /** The eviction loop at the end of `put`. */
    method Evict()
      requires 0 < maxEntries && |lru| <= maxEntries + 1
      requires Linked(entries, lru, contents) && Holds(lru, contents) && AllJustified(contents, log)
      requires forall e :: e in lru ==> e in elements
      modifies this
      ensures Valid() && log == old(log) && elements == old(elements)
      ensures contents == if |old(contents)| > maxEntries then old(contents)[..maxEntries] else old(contents)
    {
      hide Linked, AllJustified, Find, DistinctPrefixes;
      ghost var all := contents;
      while |lru| > maxEntries
        invariant |all| >= |lru| && (|lru| >= maxEntries || |lru| == |all|)
        invariant |all| <= maxEntries + 1 && contents == all[..|lru|]
        invariant Linked(entries, lru, contents) && Holds(lru, contents)
        invariant log == old(log) && elements == old(elements) && forall e :: e in lru ==> e in elements
      {
        var oldest := lru[|lru| - 1];
        var last := oldest.value;
        HoldsAt(lru, contents, |lru| - 1);
        LinkedDropLast(entries, lru, contents);
        HoldsDropLast(lru, contents);
        entries := entries - {last.prefix};
        lru := lru[..|lru| - 1];
        contents := contents[..|contents| - 1];
      }
      JustifiedSubset(contents, all, log);
    }

    /** Whatever other lookups may do between two steps of one; nothing when it runs alone. */
    method OtherLookups(ghost alone: bool)
      requires Valid()
      modifies this, elements
      ensures Valid() && old(log) <= log
      ensures fresh(elements - old(elements))
      ensures alone ==> contents == old(contents) && log == old(log)
    {
    }

    lemma HasDistinctPrefixes()
      requires Valid()
      ensures DistinctPrefixes(contents) && AllJustified(contents, log)
    {
    }

    /** The first loop of Lookup: what is live comes from the cache, the rest is missing. */
    method CollectHits(unique: seq<Prefix>, now: Time, ghost alone: bool)
      returns (hits: seq<FullHash>, missing: seq<Prefix>, seconds: Uint32, ghost sources: seq<Source>)
      requires Valid()
      modifies this, elements
      ensures Valid() && old(log) <= log
      ensures fresh(elements - old(elements))
      ensures AllUsable(sources, log, now, seconds) && seconds == Least(sources, now)
      ensures Answers(hits, sources) && AllTimed(hits, sources, now)
      ensures Covers(sources, missing, unique)
      ensures Distinct(unique) ==> Distinct(missing)
      ensures alone ==> log == old(log) && contents == AfterGets(old(contents), unique, now)
      ensures alone ==> missing == Missing(old(contents), unique, now)
    {
      hide Valid, Linked, AllJustified, Find, DistinctPrefixes, Live, AfterGet, Supplies, Answers, Covers;
      hide AfterGets, Missing, AllUsable, Least, Distinct, WithSeconds, RemainingSeconds, AllTimed;
      hits, missing, seconds, sources := [], [], MAX_UINT32, [];
      NoSources(contents, log, now, seconds);
      NoneTimed(now);
      var i := 0;
      while i < |unique|
        invariant i <= |unique| && Valid() && old(log) <= log
        invariant fresh(elements - old(elements))
        invariant AllUsable(sources, log, now, seconds) && seconds == Least(sources, now)
        invariant Answers(hits, sources) && AllTimed(hits, sources, now)
        invariant Covers(sources, missing, unique[..i])
        invariant Distinct(unique[..i]) ==> Distinct(missing)
        invariant alone ==> log == old(log) && contents == AfterGets(old(contents), unique[..i], now)
        invariant alone ==> forall q :: Live(contents, q, now) == Live(old(contents), q, now)
        invariant alone ==> missing == Missing(old(contents), unique[..i], now)
      {
        var prefix := unique[i];
        ghost var earlier := log;
        OtherLookups(alone);
        UsableLater(sources, earlier, log, now, seconds, seconds);
        ghost var was := contents;
        HasDistinctPrefixes();
        var hashes, left, ok := Get(prefix, now);
        MissingStep(sources, missing, unique, i);
        if alone {
          AloneStep(old(contents), was, unique, i, now);
        }
        if !ok {
          missing := missing + [prefix];
        } else {
          ghost var f := LiveSupplier(was, prefix, now, log);
          ghost var entry := was[Find(was, prefix)];
          HitStep(sources, hits, log, now, seconds, entry, f);
          TimedHit(hits, sources, entry, f, now);
          sources := sources + [Source(prefix, f)];
          hits := hits + hashes;
          if left < seconds {
            seconds := left;
          }
        }
        i := i + 1;
      }
      assert unique[..|unique|] == unique;
    }

    /** The second loop: the missing prefixes are stored, each with its part of the answer. */
    method StoreAnswer(matches: map<Prefix, seq<FullHash>>, missing: seq<Prefix>, expiresAt: Time, ghost f: Fetch,
                       ghost alone: bool)
      requires Valid() && f in log && f.asked == missing && expiresAt == FetchExpiry(f)
      requires IsGrouping(matches, f.answer.fullHashes)
      modifies this, elements
      ensures Valid() && old(log) <= log && fresh(elements - old(elements))
      ensures alone ==> log == old(log)
      ensures alone ==> contents == AfterPuts(old(contents), missing, f.answer.fullHashes, expiresAt, maxEntries)
    {
      hide Valid, AfterPut, Matching;
      var i := 0;
      while i < |missing|
        invariant i <= |missing| && Valid() && old(log) <= log && fresh(elements - old(elements))
        invariant alone ==> log == old(log)
        invariant alone
          ==> contents == AfterPuts(old(contents), missing[..i], f.answer.fullHashes, expiresAt, maxEntries)
      {
        var prefix := missing[i];
        OtherLookups(alone);
        var hashes := if prefix in matches then matches[prefix] else [];
        assert hashes == Matching(f.answer.fullHashes, prefix);
        assert f in log && Supplies(f, CacheEntry(prefix, hashes, expiresAt));
        Put(prefix, hashes, expiresAt);
        assert missing[..i + 1][..i] == missing[..i];
        i := i + 1;
      }
      assert missing[..|missing|] == missing;
    }

    /**
     * A lookup at `now`. Every returned hash has a source in the log, one source for each asked prefix; the seconds
     * outlive none of them.
     */
    method Lookup(prefixes: seq<Prefix>, now: Time, upstream: seq<Prefix> -> Option<LookupResult>, ghost alone: bool)
      returns (result: Option<LookupResult>, ghost sources: seq<Source>)
      requires Valid()
      modifies this, elements
      ensures Valid() && old(log) <= log && fresh(elements - old(elements))
      ensures result.Some? ==>
        && AllUsable(sources, log, now, result.value.cacheSeconds)
        && result.value.cacheSeconds == Reported(Least(sources, now))
        && (result.value.cacheSeconds == Least(sources, now) <==> Least(sources, now) != MAX_UINT32)
        && Covers(sources, [], Unique(prefixes))
        && Answers(result.value.fullHashes, sources)
        && AllTimed(result.value.fullHashes, sources, now)
      ensures alone ==>
        (contents, log, result.Some?) == Outcome(old(contents), old(log), prefixes, now, upstream, maxEntries)
    {
      hide Valid, AfterPuts, AfterGets, Missing, Answers, Covers, Distinct, AllUsable, Unique, HasForeign;
      hide Matching, Least, OwnSources, IsGrouping, Justified, Linked, RemainingSeconds, WithSeconds;
      hide ExpiryOf, Collected, AllTimed, Reported;
      result, sources := None, [];
      var deduplicated := DeduplicatePrefixes(prefixes);
      if deduplicated.None? {
        return;
      }
      var unique := deduplicated.value;
      UniqueIsSet(prefixes);
      var hits, missing, seconds, cached := CollectHits(unique, now, alone);
      sources := cached;
      if |missing| > 0 {
        ghost var earlier := log;
        OtherLookups(alone);
        UsableLater(sources, earlier, log, now, seconds, seconds);
        var fetched := upstream(missing);
        if fetched.None? {
          return;
        }
        ghost var f := Fetch(now, missing, fetched.value);
        FetchStepIfOwn(sources, hits, log, now, seconds, f, unique);
        LogFetch(f);
        var matches := GroupByPrefix(fetched.value.fullHashes, missing);
        if matches.None? {
          return;
        }
        earlier := log;
        TimedOwn(hits, sources, f);
        StoreAnswer(matches.value, missing, ExpiryOf(now, fetched.value.cacheSeconds), f, alone);
        sources := sources + OwnSources(f, missing);
        hits := hits + fetched.value.fullHashes;
        if fetched.value.cacheSeconds < seconds {
          seconds := fetched.value.cacheSeconds;
        }
        UsableLater(sources, earlier, log, now, seconds, seconds);
      }
      result := Some(LookupResult(hits, if seconds != MAX_UINT32 then seconds else 0));
      ReportIs(sources, log, now, seconds);
    }

    /** Upstream has answered. */
    ghost method LogFetch(f: Fetch)
      requires Valid()
      modifies this
      ensures Valid() && log == old(log) + [f] && contents == old(contents) && elements == old(elements)
    {
      hide Linked, Justified;
      JustifiedLater(contents, log, log + [f]);
      log := log + [f];
    }
  }

  /** What is reported of the least seconds of the sources. */
  lemma ReportIs(sources: seq<Source>, log: seq<Fetch>, now: Time, seconds: Uint32)
    requires AllUsable(sources, log, now, seconds) && seconds == Least(sources, now)
    ensures var reported := if seconds != MAX_UINT32 then seconds else 0;
            && AllUsable(sources, log, now, reported) && reported == Reported(Least(sources, now))
            && (reported == Least(sources, now) <==> Least(sources, now) != MAX_UINT32)
  {
    hide AllUsable, Least;
    UsableLater(sources, log, log, now, seconds, if seconds != MAX_UINT32 then seconds else 0);
  }

  lemma ElementsDiffer(entries: map<Prefix, Element>, lru: seq<Element>, contents: seq<CacheEntry>, i: nat)
    requires Linked(entries, lru, contents) && i < |lru|
    ensures lru[i] !in RemoveAt(lru, i)
  {
    hide DistinctPrefixes, Find;
    forall k | 0 <= k < |lru| - 1
      ensures RemoveAt(lru, i)[k] == lru[if k < i then k else k + 1]
    {
    }
  }

  lemma PutJustified(was: seq<CacheEntry>, entry: CacheEntry, log: seq<Fetch>)
    requires AllJustified(was, log) && Justified(entry, log)
    ensures AllJustified([entry] + Without(was, entry.prefix), log)
  {
    hide Justified;
    var others := Without(was, entry.prefix);
    JustifiedSubset(others, was, log);
    var all := [entry] + others;
    assert forall k :: 0 < k < |all| ==> all[k] == others[k - 1];
  }

  /** The one duration at which the reported seconds are not the least left: upstream answers with 2^32 - 1 seconds,
      the entry stays that long, and zero is reported. */
  method LongestDurationIsReportedAsZero(prefix: Prefix, now: Time)
    returns (cache: Cache, result: Option<LookupResult>, ghost sources: seq<Source>)
    ensures cache.Valid() && |cache.contents| == 1 && cache.contents[0].expiresAt == ExpiryOf(now, MAX_UINT32)
    ensures result == Some(LookupResult([], 0)) && Least(sources, now) == MAX_UINT32
  {
    hide cache.Valid, AllUsable, Unique, Answers, Covers, Least, Outcome;
    cache := new Cache(1);
    var upstream: seq<Prefix> -> Option<LookupResult> := (asked: seq<Prefix>) => Some(LookupResult([], MAX_UINT32));
    result, sources := cache.Lookup([prefix], now, upstream, true);
    OutcomeOfLongest(prefix, now, upstream);
    LongestSources(prefix, now, cache.log, sources, result.value);
  }

  lemma OneIsMissing(prefix: Prefix, now: Time)
    ensures Unique([prefix]) == [prefix]
    ensures Missing([], [prefix], now) == [prefix] && AfterGets([], [prefix], now) == []
  {
    assert [prefix][..0] == [];
    assert Unique([]) == [] && Missing([], [], now) == [] && AfterGets([], [], now) == [];
  }

  lemma OneIsPut(prefix: Prefix, expiresAt: Time)
    ensures AfterPuts([], [prefix], [], expiresAt, 1) == [CacheEntry(prefix, [], expiresAt)]
  {
    assert [prefix][..0] == [] && AfterPuts([], [], [], expiresAt, 1) == [];
  }

  lemma OutcomeOfLongest(prefix: Prefix, now: Time, upstream: seq<Prefix> -> Option<LookupResult>)
    requires upstream([prefix]) == Some(LookupResult([], MAX_UINT32))
    ensures Outcome([], [], [prefix], now, upstream, 1)
         == ([CacheEntry(prefix, [], ExpiryOf(now, MAX_UINT32))],
             [Fetch(now, [prefix], LookupResult([], MAX_UINT32))], true)
  {
    hide Unique, Missing, AfterGets, AfterPuts;
    OneIsMissing(prefix, now);
    OneIsPut(prefix, ExpiryOf(now, MAX_UINT32));
    assert !HasForeign([], [prefix]);
    var f := Fetch(now, [prefix], LookupResult([], MAX_UINT32));
    assert [] + [f] == [f];
  }

  /** All sources are that one answer. */
  lemma LongestSources(prefix: Prefix, now: Time, log: seq<Fetch>, sources: seq<Source>, result: LookupResult)
    requires log == [Fetch(now, [prefix], LookupResult([], MAX_UINT32))]
    requires AllUsable(sources, log, now, result.cacheSeconds) && Answers(result.fullHashes, sources)
    ensures Least(sources, now) == MAX_UINT32 && result.fullHashes == []
  {
    AllTheSame(sources, log, now, result.cacheSeconds);
    assert |multiset(Bare(result.fullHashes))| == |result.fullHashes|;
  }

  lemma {:induction false} AllTheSame(sources: seq<Source>, log: seq<Fetch>, now: Time, seconds: Uint32)
    requires AllUsable(sources, log, now, seconds)
    requires forall f :: f in log ==> f.at == now && f.answer == LookupResult([], MAX_UINT32)
    ensures Least(sources, now) == MAX_UINT32 && Collected(sources) == multiset{}
  {
    if sources != [] {
      var last := |sources| - 1;
      AllTheSame(sources[..last], log, now, seconds);
      assert Usable(sources[last], log, now, seconds);
      assert RemainingSeconds(now, ExpiryOf(now, MAX_UINT32)) == MAX_UINT32;
      assert PartOf([], sources[last].prefix) == multiset{};
    }
  }
}
