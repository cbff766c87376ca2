/** The status-response cache (crates/infrarust/src/server/cache.rs): the
    answers backend servers gave to status requests, kept for a fixed time
    to live and bounded in number.  Times are natural numbers of
    nanoseconds on the wall clock, and "now" is a parameter.  The cache key
    is a SipHash of the server's first address and the client's protocol
    version; hashing is not part of this model, so keys are given. */
module StatusCache {
  import opened Bytes
  import opened Wrappers
  import opened Config

  const NANOS_PER_SECOND: nat := 1_000_000_000
  const DEFAULT_TTL_SECONDS: nat := 30
  const DEFAULT_MAX_ENTRIES: nat := 1000
  /** How many of the earliest-expiring entries a full cache drops. */
  const EVICTION_COUNT: nat := 10

  /** `CacheEntry`, over any response type. */
  datatype CacheEntry<R> = CacheEntry(expiresAt: nat, response: R)

  /** `StatusCache` */
  datatype Cache<R> = Cache(ttl: nat, entries: map<u64, CacheEntry<R>>, maxSize: nat, motd: MotdConfig)

  /** `from_shared_config`: 30 seconds and 1000 entries unless configured,
      and the configured unreachable MOTD or the default one. */
  function FromSharedConfig<R>(statusTtlSeconds: Option<u64>, maxStatusEntries: Option<nat>,
                               unreachableMotd: Option<MotdConfig>): (c: Cache<R>)
    ensures c.entries == map[]
    ensures statusTtlSeconds.None? ==> c.ttl == 30 * NANOS_PER_SECOND
    ensures maxStatusEntries.None? ==> c.maxSize == 1000
    ensures unreachableMotd.None? ==> c.motd == DefaultMotd()
    ensures statusTtlSeconds.Some? ==> c.ttl == statusTtlSeconds.value * NANOS_PER_SECOND
    ensures maxStatusEntries.Some? ==> c.maxSize == maxStatusEntries.value
    ensures unreachableMotd.Some? ==> c.motd == unreachableMotd.value
  {
    Cache(statusTtlSeconds.UnwrapOr(DEFAULT_TTL_SECONDS) * NANOS_PER_SECOND, map[],
          maxStatusEntries.UnwrapOr(DEFAULT_MAX_ENTRIES), unreachableMotd.UnwrapOr(DefaultMotd()))
  }

  /** `check_cache`: an entry is served only while it has not expired. */
  function CheckCache<R>(c: Cache<R>, key: u64, now: nat): (r: Option<R>)
    ensures r.Some? <==> key in c.entries && c.entries[key].expiresAt > now
    ensures r.Some? ==> r.value == c.entries[key].response
  {
    if key in c.entries && c.entries[key].expiresAt > now then Some(c.entries[key].response) else None
  }

  /** `clean_expired_entries`: drop every entry whose time is up. */
  function CleanExpired<R>(entries: map<u64, CacheEntry<R>>, now: nat): (r: map<u64, CacheEntry<R>>)
    ensures forall k :: k in r <==> k in entries && entries[k].expiresAt > now
    ensures forall k :: k in r ==> r[k] == entries[k]
    ensures |r| <= |entries|
  {
    var r := map k | k in entries && entries[k].expiresAt > now :: entries[k];
    SubsetCard(r.Keys, entries.Keys);
    r
  }

  lemma {:induction false} SubsetCard(a: set<u64>, b: set<u64>)
    requires a <= b
    ensures |a| <= |b|
    decreases |b|
  {
    if b != {} {
      var x :| x in b;
      SubsetCard(a - {x}, b - {x});
    }
  }

  /** Among any non-empty set of keys of a map, one expires no later than
      the others. */
  lemma {:induction false} EarliestExists<R>(entries: map<u64, CacheEntry<R>>, keys: set<u64>)
    requires keys != {} && keys <= entries.Keys
    ensures exists k :: k in keys && forall j :: j in keys ==> entries[k].expiresAt <= entries[j].expiresAt
    decreases keys
  {
    var x :| x in keys;
    var rest := keys - {x};
    if rest == {} {
      forall j | j in keys ensures entries[x].expiresAt <= entries[j].expiresAt {
        assert j !in rest;
      }
    } else {
      EarliestExists(entries, rest);
      var y :| y in rest && forall j :: j in rest ==> entries[y].expiresAt <= entries[j].expiresAt;
      var m := if entries[x].expiresAt <= entries[y].expiresAt then x else y;
      forall j | j in keys ensures entries[m].expiresAt <= entries[j].expiresAt {
        if j != x { assert j in rest; }
      }
    }
  }

  /** `remove_oldest_entries`: drop the `max(1, min(count, len))` entries
      that expire first.  Among entries that expire together the source
      follows the map's order, which the model leaves open. */
  method RemoveOldest<R>(entries: map<u64, CacheEntry<R>>, count: nat) returns (r: map<u64, CacheEntry<R>>)
    ensures r.Keys <= entries.Keys && forall k :: k in r ==> r[k] == entries[k]
    ensures |entries| > 0 ==> |r| + (if count == 0 then 1 else if count < |entries| then count else |entries|) == |entries|
    ensures |entries| == 0 ==> r == entries
    ensures forall gone, kept :: gone in entries && gone !in r && kept in r
              ==> entries[gone].expiresAt <= entries[kept].expiresAt
  {
    var removeCount := if count == 0 then 1 else if count < |entries| then count else |entries|;
    r := entries;
    var removed := 0;
    while removed < removeCount && |r| > 0
      invariant r.Keys <= entries.Keys && forall k :: k in r ==> r[k] == entries[k]
      invariant removed <= removeCount && |r| + removed == |entries|
      invariant forall gone, kept :: gone in entries && gone !in r && kept in r
                  ==> entries[gone].expiresAt <= entries[kept].expiresAt
      decreases removeCount - removed
    {
      assert r.Keys != {} by { var j :| j in r; }
      EarliestExists(r, r.Keys);
      var k :| k in r.Keys && forall j :: j in r.Keys ==> r[k].expiresAt <= r[j].expiresAt;
      r := r - {k};
      removed := removed + 1;
    }
  }

  /** `update_cache`: drop the expired entries, make room when full, then
      store the response to expire one time-to-live from now. */
  method UpdateCache<R>(c: Cache<R>, key: u64, response: R, now: nat) returns (r: Cache<R>)
    ensures r.ttl == c.ttl && r.maxSize == c.maxSize && r.motd == c.motd
    ensures key in r.entries && r.entries[key] == CacheEntry(now + c.ttl, response)
    ensures forall k :: k in r.entries && k != key
              ==> k in c.entries && r.entries[k] == c.entries[k] && c.entries[k].expiresAt > now
    ensures forall k :: k in c.entries && k != key && c.entries[k].expiresAt > now
                        && |CleanExpired(c.entries, now)| < c.maxSize
              ==> k in r.entries
    ensures forall gone, kept :: gone in c.entries && c.entries[gone].expiresAt > now && gone !in r.entries
                                 && kept in r.entries && kept != key
              ==> c.entries[gone].expiresAt <= c.entries[kept].expiresAt
    ensures 1 <= c.maxSize && |c.entries| <= c.maxSize ==> |r.entries| <= c.maxSize
  {
    var entries := CleanExpired(c.entries, now);
    if |entries| >= c.maxSize {
      entries := RemoveOldest(entries, EVICTION_COUNT);
    }
    r := c.(entries := entries[key := CacheEntry(now + c.ttl, response)]);
  }

  /** A response just stored is served until its time to live runs out,
      and not after. */
  method StoredResponseServed<R>(c: Cache<R>, key: u64, response: R, now: nat, later: nat)
    returns (served: Option<R>)
    ensures served == (if later < now + c.ttl then Some(response) else None)
  {
    var updated := UpdateCache(c, key, response, now);
    served := CheckCache(updated, key, later);
  }

  /** `get_status_response` for a given key: a live cached answer is
      returned as is; otherwise the server is asked (its answer is the
      parameter `fetched`), and a successful answer is stored, while a
      failed one is answered with `fallback`, the proxy's own
      "unreachable" response, and stores nothing. */
  method GetStatusResponse<R>(c: Cache<R>, key: u64, now: nat, fetched: Result<R, string>, fallback: R)
    returns (response: R, r: Cache<R>)
    ensures CheckCache(c, key, now).Some? ==> response == CheckCache(c, key, now).value && r == c
    ensures CheckCache(c, key, now).None? && fetched.Ok?
            ==> response == fetched.value && CheckCache(r, key, now) == (if c.ttl > 0 then Some(response) else None)
    ensures CheckCache(c, key, now).None? && fetched.Err? ==> response == fallback && r == c
  {
    var hit := CheckCache(c, key, now);
    if hit.Some? {
      return hit.value, c;
    }
    match fetched
    case Ok(v) =>
      r := UpdateCache(c, key, v, now);
      response := v;
    case Err(_) =>
      response, r := fallback, c;
  }
}
