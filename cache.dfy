/**
 * The in-memory TTL cache of lib/cache.ts: scholar id -> (papers, timestamp),
 * with lazy eviction on `get`. The clock is an explicit `now` argument.
 */
module Cache {
  import opened Types

  /** 24 hours in milliseconds. */
  const DefaultTtlMs: int := 24 * 60 * 60 * 1000

  /** One call on the cache, with the clock reading it would see. */
  datatype CacheOp =
    | GetOp(key: string, now: int)
    | SetOp(key: string, papers: seq<Paper>, now: int)
    | InvalidateOp(key: string)

  /** An entry stored at `timestamp` is expired at `now` once `ttlMs` has elapsed. */
  predicate Expired(entry: CacheEntry, ttlMs: int, now: int) {
    now - entry.timestamp >= ttlMs
  }

  /** What `get(key)` returns at `now`. */
  function Lookup(m: map<string, CacheEntry>, ttlMs: int, key: string, now: int): Option<seq<Paper>> {
    if key !in m || Expired(m[key], ttlMs, now) then None else Some(m[key].papers)
  }

  /** The entry map after one call. */
  function Apply(m: map<string, CacheEntry>, ttlMs: int, op: CacheOp): map<string, CacheEntry> {
    match op
    case GetOp(key, now) =>
      if key in m && Expired(m[key], ttlMs, now) then m - {key} else m
    case SetOp(key, papers, now) => m[key := CacheEntry(papers, now)]
    case InvalidateOp(key) => m - {key}
  }

  /** The entry map after a sequence of calls, in order. */
  function Run(m: map<string, CacheEntry>, ttlMs: int, ops: seq<CacheOp>): map<string, CacheEntry>
    decreases |ops|
  {
    if ops == [] then m else Run(Apply(m, ttlMs, ops[0]), ttlMs, ops[1..])
  }

  /** The key a call is about. */
  function KeyOf(op: CacheOp): string {
    match op
    case GetOp(key, _) => key
    case SetOp(key, _, _) => key
    case InvalidateOp(key) => key
  }

  /**
   * Keys are independent: calls about other keys leave an entry exactly as it
   * was (present with the same papers and timestamp, or absent).
   */
  lemma {:induction false} OtherKeysUntouched(m: map<string, CacheEntry>, ttlMs: int,
                                              ops: seq<CacheOp>, key: string)
    requires forall i :: 0 <= i < |ops| ==> KeyOf(ops[i]) != key
    ensures key in Run(m, ttlMs, ops) <==> key in m
    ensures key in m ==> Run(m, ttlMs, ops)[key] == m[key]
    decreases |ops|
  {
    if ops != [] {
      OtherKeysUntouched(Apply(m, ttlMs, ops[0]), ttlMs, ops[1..], key);
    }
  }

  /** An absent key only becomes present through a `set` of that key. */
  lemma {:induction false} AbsentUntilSet(m: map<string, CacheEntry>, ttlMs: int,
                                          ops: seq<CacheOp>, key: string)
    requires key !in m
    requires forall i :: 0 <= i < |ops| ==> !(ops[i].SetOp? && ops[i].key == key)
    ensures key !in Run(m, ttlMs, ops)
    decreases |ops|
  {
    if ops != [] {
      AbsentUntilSet(Apply(m, ttlMs, ops[0]), ttlMs, ops[1..], key);
    }
  }

  /**
   * The life of an entry: after `set(key, papers)` at `t0`, and any calls about
   * other keys, `get(key)` at `now` returns `papers` while `now - t0 < ttlMs`
   * and null from then on, evicting the entry.
   */
  lemma EntryLifetime(m: map<string, CacheEntry>, ttlMs: int, key: string, papers: seq<Paper>,
                      t0: int, ops: seq<CacheOp>, now: int)
    requires forall i :: 0 <= i < |ops| ==> KeyOf(ops[i]) != key
    ensures var m' := Run(Apply(m, ttlMs, SetOp(key, papers, t0)), ttlMs, ops);
      && Lookup(m', ttlMs, key, now) == (if now - t0 < ttlMs then Some(papers) else None)
      && (now - t0 >= ttlMs ==> key !in Apply(m', ttlMs, GetOp(key, now)))
      && (now - t0 < ttlMs ==> Apply(m', ttlMs, GetOp(key, now)) == m')
  {
    OtherKeysUntouched(Apply(m, ttlMs, SetOp(key, papers, t0)), ttlMs, ops, key);
  }

  /**
   * The cache object. `cache` is the private `Map`; `ttlMs` is the configured
   * time to live, fixed by the constructor.
   */
  class CitationCache {
    var cache: map<string, CacheEntry>
    const ttlMs: int

    /** `new CitationCache(config?)`: an empty cache; the ttl defaults to 24 hours. */
    constructor(configTtlMs: Option<int>)
      ensures cache == map[]
      ensures ttlMs == (if configTtlMs.Some? then configTtlMs.value else DefaultTtlMs)
    {
      cache := map[];
      ttlMs := if configTtlMs.Some? then configTtlMs.value else DefaultTtlMs;
    }

    /**
     * `get(scholarId)`: a miss returns null and changes nothing; an expired
     * entry is deleted and null returned; a live entry is returned as stored.
     */
    method Get(scholarId: string, now: int) returns (papers: Option<seq<Paper>>)
      modifies this
      ensures scholarId !in old(cache) ==> papers == None && cache == old(cache)
      ensures scholarId in old(cache) && Expired(old(cache)[scholarId], ttlMs, now) ==>
        papers == None && cache == old(cache) - {scholarId}
      ensures scholarId in old(cache) && !Expired(old(cache)[scholarId], ttlMs, now) ==>
        papers == Some(old(cache)[scholarId].papers) && cache == old(cache)
      ensures papers == Lookup(old(cache), ttlMs, scholarId, now)
      ensures cache == Apply(old(cache), ttlMs, GetOp(scholarId, now))
    {
      if scholarId !in cache {
        return None;
      }
      var entry := cache[scholarId];
      var elapsed := now - entry.timestamp;
      if elapsed >= ttlMs {
        cache := cache - {scholarId};
        return None;
      }
      return Some(entry.papers);
    }

    /** `set(scholarId, papers)`: overwrites the key's entry, stamped `now`; other keys stay. */
    method Set(scholarId: string, papers: seq<Paper>, now: int)
      modifies this
      ensures cache == old(cache)[scholarId := CacheEntry(papers, now)]
      ensures cache == Apply(old(cache), ttlMs, SetOp(scholarId, papers, now))
    {
      cache := cache[scholarId := CacheEntry(papers, now)];
    }

    /** `invalidate(scholarId)`: removes the key if present; other keys stay. */
    method Invalidate(scholarId: string)
      modifies this
      ensures cache == old(cache) - {scholarId}
      ensures cache == Apply(old(cache), ttlMs, InvalidateOp(scholarId))
    {
      cache := cache - {scholarId};
    }
  }

  /**
   * A client run of the cache tests: with a 1000 ms ttl, a stored list is
   * returned 999 ms later and is gone at 1000 ms; the default ttl is 24 hours;
   * an empty list is cached like any other; invalidating a missing key leaves
   * the other entries in place, and invalidating a present one removes it.
   */
  method CacheScenario(papers: seq<Paper>, t: int)
    returns (early: Option<seq<Paper>>, late: Option<seq<Paper>>, defaultTtl: int,
             emptyHit: Option<seq<Paper>>, keptAfterMissing: Option<seq<Paper>>,
             afterInvalidate: Option<seq<Paper>>)
    ensures early == Some(papers) && late == None
    ensures defaultTtl == 86400000
    ensures emptyHit == Some([])
    ensures keptAfterMissing == Some(papers)
    ensures afterInvalidate == None
  {
    var c := new CitationCache(Some(1000));
    c.Set("user123", papers, t);
    early := c.Get("user123", t + 999);
    late := c.Get("user123", t + 1000);
    var d := new CitationCache(None);
    defaultTtl := d.ttlMs;
    d.Set("empty_user", [], t);
    emptyHit := d.Get("empty_user", t);
    d.Set("user123", papers, t);
    d.Invalidate("nonexistent");
    keptAfterMissing := d.Get("user123", t);
    d.Invalidate("empty_user");
    afterInvalidate := d.Get("empty_user", t);
  }
}
