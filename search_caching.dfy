/**
  `SearchCache`: results of earlier searches, keyed by what was searched and
  how, stored in dictionary form with the time they were stored, and dropped
  lazily once they are older than the time-to-live.
*/
module SearchCaching {
  import opened Common
  import opened Strings
  import opened Sorting
  import opened Models
  import opened SearchTypes

  // ---------------------------------------------------------------------------
  // _make_key

  /**
    What `_make_key` hashes: the text `alias:query`, then the options with
    their four lists sorted. The hash itself and the JSON text are left out;
    two searches share an entry exactly when these values are equal.
  */
  datatype CacheKey = CacheKey(
    head: string,
    fileTypes: seq<string>,
    excludeTypes: seq<string>,
    contextBefore: int,
    contextAfter: int,
    ignoreCase: bool,
    smartCase: bool,
    regexMode: bool,
    maxResults: int,
    includePatterns: seq<string>,
    excludePatterns: seq<string>)

  /** `sorted` on a list of strings. */
  function Sorted(l: seq<string>): seq<string> {
    Sort(l, LexLe)
  }

  /** `_make_key`. */
  function MakeKey(alias: string, query: string, o: SearchOptions): CacheKey {
    CacheKey(
      alias + ":" + query,
      Sorted(o.fileTypes), Sorted(o.excludeTypes),
      o.contextBefore, o.contextAfter, o.ignoreCase, o.smartCase, o.regexMode, o.maxResults,
      Sorted(o.includePatterns), Sorted(o.excludePatterns))
  }

  /** Two option sets a search cannot tell apart: equal scalars and lists equal up to order. */
  predicate SameOptions(o1: SearchOptions, o2: SearchOptions) {
    && multiset(o1.fileTypes) == multiset(o2.fileTypes)
    && multiset(o1.excludeTypes) == multiset(o2.excludeTypes)
    && o1.contextBefore == o2.contextBefore && o1.contextAfter == o2.contextAfter
    && o1.ignoreCase == o2.ignoreCase && o1.smartCase == o2.smartCase
    && o1.regexMode == o2.regexMode && o1.maxResults == o2.maxResults
    && multiset(o1.includePatterns) == multiset(o2.includePatterns)
    && multiset(o1.excludePatterns) == multiset(o2.excludePatterns)
  }

  lemma StringOrder()
    ensures TotalPreorder(LexLe) && Antisymmetric(LexLe)
  {
    forall a, b ensures LexLe(a, b) || LexLe(b, a) {
      LexLeTotal(a, b);
    }
    forall a, b, c | LexLe(a, b) && LexLe(b, c) ensures LexLe(a, c) {
      LexLeTrans(a, b, c);
    }
    forall a, b | LexLe(a, b) && LexLe(b, a) ensures a == b {
      LexLeAntisym(a, b);
    }
  }

  lemma SortedEqual(l1: seq<string>, l2: seq<string>)
    ensures Sorted(l1) == Sorted(l2) <==> multiset(l1) == multiset(l2)
  {
    StringOrder();
    SortPermutationInvariant(l1, l2, LexLe);
  }

  /**
    Two searches share a cache entry exactly when their `alias:query` texts
    are equal and their options agree, lists compared as multisets: the order
    of a list never matters, a repeated entry does.
  */
  lemma KeyDecides(a1: string, q1: string, o1: SearchOptions, a2: string, q2: string, o2: SearchOptions)
    ensures MakeKey(a1, q1, o1) == MakeKey(a2, q2, o2) <==> a1 + ":" + q1 == a2 + ":" + q2 && SameOptions(o1, o2)
  {
    SortedEqual(o1.fileTypes, o2.fileTypes);
    SortedEqual(o1.excludeTypes, o2.excludeTypes);
    SortedEqual(o1.includePatterns, o2.includePatterns);
    SortedEqual(o1.excludePatterns, o2.excludePatterns);
  }

  /** The alias and the query are joined by a bare ":": alias `a:b` with query `c` meets alias `a` with query `b:c`. */
  lemma AliasQueryCollide(o: SearchOptions)
    ensures MakeKey("a:b", "c", o) == MakeKey("a", "b:c", o)
  {
    assert "a:b" + ":" + "c" == "a" + ":" + "b:c";
  }

  // ---------------------------------------------------------------------------
  // Entries and their lifetime

  /** `timedelta(minutes=10)`, in seconds. */
  const CacheTtl: int := 600

  /** One stored search: when it was stored and its results in dictionary form. */
  datatype CacheEntry = CacheEntry(timestamp: Timestamp, results: seq<map<string, Value>>)

  /** Every stored dictionary rebuilds a result. */
  predicate Decodable(ds: seq<map<string, Value>>) {
    forall i :: 0 <= i < |ds| ==> FromDict(ds[i]).Some?
  }

  /** `[SearchResult(**d) for d in ds]`. */
  function Decoded(ds: seq<map<string, Value>>): (rs: seq<SearchResult>)
    requires Decodable(ds)
    ensures |rs| == |ds| && forall i :: 0 <= i < |ds| ==> Some(rs[i]) == FromDict(ds[i])
  {
    seq(|ds|, i requires 0 <= i < |ds| => FromDict(ds[i]).value)
  }

  /** What a stored list of results gives back is that list. */
  lemma DecodedEncoded(rs: seq<SearchResult>)
    ensures Decodable(Encoded(rs)) && Decoded(Encoded(rs)) == rs
  {
    var ds := Encoded(rs);
    assert Decodable(ds);
    forall i | 0 <= i < |rs| ensures Decoded(ds)[i] == rs[i] {
      assert Some(Decoded(ds)[i]) == FromDict(ds[i]) == Some(rs[i]);
    }
  }

  /** Every entry of the map holds results that rebuild. */
  predicate EntriesDecodable(cache: map<CacheKey, CacheEntry>) {
    forall k :: k in cache ==> Decodable(cache[k].results)
  }

  /** An entry is served while its age is below the time-to-live. */
  predicate Fresh(e: CacheEntry, now: Timestamp, ttl: int) {
    now - e.timestamp < ttl
  }

  /**
    `get` as a function of the map: the rebuilt results of a fresh entry, and
    the map unchanged; otherwise nothing, and the map without that key.
  */
  function Lookup(cache: map<CacheKey, CacheEntry>, k: CacheKey, now: Timestamp, ttl: int): (r: (Option<seq<SearchResult>>, map<CacheKey, CacheEntry>))
    requires EntriesDecodable(cache)
    ensures EntriesDecodable(r.1)
    ensures r.0.Some? <==> k in cache && Fresh(cache[k], now, ttl)
    ensures r.0.Some? ==> r.1 == cache && |r.0.value| == |cache[k].results|
    ensures r.0.None? ==> r.1 == cache - {k}
  {
    if k in cache && Fresh(cache[k], now, ttl) then (Some(Decoded(cache[k].results)), cache)
    else (None, cache - {k})
  }

  /** `set`: the entry under `k` is replaced by the results stored now. */
  function Store(cache: map<CacheKey, CacheEntry>, k: CacheKey, rs: seq<SearchResult>, now: Timestamp): (c: map<CacheKey, CacheEntry>)
    requires EntriesDecodable(cache)
    ensures EntriesDecodable(c) && c.Keys == cache.Keys + {k}
  {
    DecodedEncoded(rs);
    cache[k := CacheEntry(now, Encoded(rs))]
  }

  /** Reading back what was stored gives the same results, exactly while the entry's age is below the time-to-live. */
  lemma LookupAfterStore(cache: map<CacheKey, CacheEntry>, k: CacheKey, rs: seq<SearchResult>, t: Timestamp, now: Timestamp, ttl: int)
    requires EntriesDecodable(cache)
    ensures Lookup(Store(cache, k, rs, t), k, now, ttl).0 == if now - t < ttl then Some(rs) else None
  {
    DecodedEncoded(rs);
  }

  /** An expired entry is dropped and every other entry stays. */
  lemma ExpiryDropsOnlyItsKey(cache: map<CacheKey, CacheEntry>, k: CacheKey, now: Timestamp, ttl: int)
    requires EntriesDecodable(cache)
    requires k in cache && !Fresh(cache[k], now, ttl)
    ensures var c := Lookup(cache, k, now, ttl).1;
      k !in c && forall k' :: k' != k ==> (k' in c <==> k' in cache) && (k' in c ==> c[k'] == cache[k'])
  {
  }

  /** Storing under one key leaves what every other key gives. */
  lemma StoreKeepsOtherKeys(cache: map<CacheKey, CacheEntry>, k: CacheKey, k': CacheKey, rs: seq<SearchResult>, t: Timestamp, now: Timestamp, ttl: int)
    requires EntriesDecodable(cache) && k' != k
    ensures Lookup(Store(cache, k, rs, t), k', now, ttl).0 == Lookup(cache, k', now, ttl).0
  {
  }

  // ---------------------------------------------------------------------------
  // The cache object

  class SearchCache {
    var cache: map<CacheKey, CacheEntry>
    const ttl: int

    predicate Valid()
      reads this
    {
      EntriesDecodable(cache)
    }

    /** `SearchCache()`: empty, ten minutes to live. */
    constructor()
      ensures Valid() && cache == map[] && ttl == CacheTtl
    {
      cache := map[];
      ttl := CacheTtl;
    }

    /** `get`: the stored results while fresh; an expired entry is deleted. */
    method Get(alias: string, query: string, options: SearchOptions, now: Timestamp) returns (r: Option<seq<SearchResult>>)
      requires Valid()
      modifies this
      ensures Valid()
      ensures (r, cache) == Lookup(old(cache), MakeKey(alias, query, options), now, ttl)
    {
      var k := MakeKey(alias, query, options);
      if k in cache {
        var entry := cache[k];
        if now - entry.timestamp < ttl {
          return Some(Decoded(entry.results));
        } else {
          cache := cache - {k};
        }
      } else {
        assert cache - {k} == cache;
      }
      return None;
    }

    /** `set`: the results, in dictionary form, stamped with the current time. */
    method Set(alias: string, query: string, options: SearchOptions, results: seq<SearchResult>, now: Timestamp)
      requires Valid()
      modifies this
      ensures Valid()
      ensures cache == Store(old(cache), MakeKey(alias, query, options), results, now)
    {
      DecodedEncoded(results);
      cache := cache[MakeKey(alias, query, options) := CacheEntry(now, Encoded(results))];
    }

    /** `clear`. */
    method Clear()
      modifies this
      ensures Valid() && cache == map[]
    {
      cache := map[];
    }
  }
}
