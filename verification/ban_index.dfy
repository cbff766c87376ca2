/** The multi-key ban index (crates/infrarust_ban_system/src/index.rs):
    bans by id, and the ids of the bans per address, UUID, lower-cased
    username, issuer and expiry time.  Lookups answer with sets of ids, as
    the source's answers come in hash-map order. */
module BanIndex {
  import opened Wrappers
  import opened Text
  import opened Net
  import opened Bans

  /** `BanIndex` */
  datatype Index = Index(
    byId: map<string, BanEntry>,
    byIp: map<IpAddr, set<string>>,
    byUuid: map<string, set<string>>,
    byUsername: map<string, set<string>>,
    byBannedBy: map<string, set<string>>,
    byExpiry: map<Option<nat>, set<string>>)

  /** `BanIndex::new` */
  const EMPTY: Index := Index(map[], map[], map[], map[], map[], map[])

  /** The ids filed under `key`, or none. */
  function Bucket<K>(m: map<K, set<string>>, key: K): set<string> {
    if key in m then m[key] else {}
  }

  /** `entry(key).or_default().insert(id)` */
  function FileUnder<K>(m: map<K, set<string>>, key: K, id: string): (r: map<K, set<string>>)
    ensures r.Keys == m.Keys + {key}
    ensures Bucket(r, key) == Bucket(m, key) + {id}
    ensures forall k :: k in m && k != key ==> r[k] == m[k]
  {
    m[key := Bucket(m, key) + {id}]
  }

  /** Take `id` out of the bucket under `key`, dropping the bucket once it
      is empty. */
  function Unfile<K>(m: map<K, set<string>>, key: K, id: string): (r: map<K, set<string>>)
    ensures Bucket(r, key) == Bucket(m, key) - {id}
    ensures r.Keys == if Bucket(m, key) - {id} == {} then m.Keys - {key} else m.Keys
    ensures forall k :: k in m && k != key ==> r[k] == m[k]
  {
    if key !in m then m
    else if m[key] - {id} == {} then m - {key}
    else m[key := m[key] - {id}]
  }

  /** The key a ban is filed under in each secondary index, if any. */
  function IpKey(b: BanEntry): Option<IpAddr> { b.ip }
  function UuidKey(b: BanEntry): Option<string> { b.uuid }
  function NameKey(b: BanEntry): Option<string> {
    if b.username.Some? then Some(ToLower(b.username.value)) else None
  }
  function IssuerKey(b: BanEntry): Option<string> { Some(b.bannedBy) }
  function ExpiryKey(b: BanEntry): Option<Option<nat>> { Some(b.expiresAt) }

  /** File `id` under `key` when there is one. */
  function FileOpt<K>(m: map<K, set<string>>, key: Option<K>, id: string): map<K, set<string>> {
    if key.Some? then FileUnder(m, key.value, id) else m
  }

  /** Unfile `id` from under `key` when there is one. */
  function UnfileOpt<K>(m: map<K, set<string>>, key: Option<K>, id: string): map<K, set<string>> {
    if key.Some? then Unfile(m, key.value, id) else m
  }

  /** One secondary index agrees with the bans: every ban is filed under
      its key, every filed id names a ban with that key, and no bucket is
      empty. */
  ghost predicate Filed<K>(byId: map<string, BanEntry>, m: map<K, set<string>>, key: BanEntry -> Option<K>) {
    (forall id :: id in byId && key(byId[id]).Some? ==> id in Bucket(m, key(byId[id]).value))
    && (forall k, id :: k in m && id in m[k] ==> id in byId && key(byId[id]) == Some(k))
    && (forall k :: k in m ==> m[k] != {})
  }

  /** The index is coherent: every ban is filed under its own id, and
      every secondary index agrees with the bans.  `Add` keeps this for a
      ban with a fresh id and `Remove` keeps it always. */
  ghost predicate Consistent(ix: Index) {
    (forall id :: id in ix.byId ==> ix.byId[id].id == id)
    && Filed(ix.byId, ix.byIp, IpKey)
    && Filed(ix.byId, ix.byUuid, UuidKey)
    && Filed(ix.byId, ix.byUsername, NameKey)
    && Filed(ix.byId, ix.byBannedBy, IssuerKey)
    && Filed(ix.byId, ix.byExpiry, ExpiryKey)
  }

  /** Filing a ban with a fresh id keeps a secondary index in agreement. */
  lemma FiledAdd<K>(byId: map<string, BanEntry>, m: map<K, set<string>>, key: BanEntry -> Option<K>, b: BanEntry)
    requires Filed(byId, m, key) && b.id !in byId
    ensures Filed(byId[b.id := b], FileOpt(m, key(b), b.id), key)
  {
  }

  /** Unfiling a ban keeps a secondary index in agreement. */
  lemma FiledRemove<K>(byId: map<string, BanEntry>, m: map<K, set<string>>, key: BanEntry -> Option<K>, id: string)
    requires Filed(byId, m, key) && id in byId
    ensures Filed(byId - {id}, UnfileOpt(m, key(byId[id]), id), key)
  {
  }

  /** `add`: file the ban under its id (replacing any ban with that id)
      and under each of its keys. */
  function Add(ix: Index, b: BanEntry): (r: Index)
    ensures r.byId == ix.byId[b.id := b]
    ensures b.ip.Some? ==> Bucket(r.byIp, b.ip.value) == Bucket(ix.byIp, b.ip.value) + {b.id}
    ensures b.uuid.Some? ==> Bucket(r.byUuid, b.uuid.value) == Bucket(ix.byUuid, b.uuid.value) + {b.id}
    ensures b.username.Some?
            ==> Bucket(r.byUsername, ToLower(b.username.value)) == Bucket(ix.byUsername, ToLower(b.username.value)) + {b.id}
    ensures Bucket(r.byBannedBy, b.bannedBy) == Bucket(ix.byBannedBy, b.bannedBy) + {b.id}
    ensures Bucket(r.byExpiry, b.expiresAt) == Bucket(ix.byExpiry, b.expiresAt) + {b.id}
  {
    Index(
      ix.byId[b.id := b],
      FileOpt(ix.byIp, IpKey(b), b.id),
      FileOpt(ix.byUuid, UuidKey(b), b.id),
      FileOpt(ix.byUsername, NameKey(b), b.id),
      FileOpt(ix.byBannedBy, IssuerKey(b), b.id),
      FileOpt(ix.byExpiry, ExpiryKey(b), b.id))
  }

  /** What `remove` gives back: the ban removed, if any, and the index. */
  datatype Removal = Removal(removed: Option<BanEntry>, index: Index)

  /** `remove`: an absent id changes nothing; otherwise the ban leaves
      every index it was filed in. */
  function Remove(ix: Index, id: string): (r: Removal)
    ensures r.removed.None? <==> id !in ix.byId
    ensures r.removed.None? ==> r.index == ix
    ensures r.removed.Some? ==> r.removed.value == ix.byId[id] && r.index.byId == ix.byId - {id}
  {
    if id !in ix.byId then Removal(None, ix)
    else
      var b := ix.byId[id];
      Removal(Some(b), Index(
        ix.byId - {id},
        UnfileOpt(ix.byIp, IpKey(b), id),
        UnfileOpt(ix.byUuid, UuidKey(b), id),
        UnfileOpt(ix.byUsername, NameKey(b), id),
        UnfileOpt(ix.byBannedBy, IssuerKey(b), id),
        UnfileOpt(ix.byExpiry, ExpiryKey(b), id)))
  }

  /** The empty index is coherent. */
  lemma EmptyConsistent()
    ensures Consistent(EMPTY)
  {
  }

  /** Adding a ban under a fresh id keeps the index coherent. */
  lemma {:induction false} AddConsistent(ix: Index, b: BanEntry)
    requires Consistent(ix) && b.id !in ix.byId
    ensures Consistent(Add(ix, b))
  {
    FiledAdd(ix.byId, ix.byIp, IpKey, b);
    FiledAdd(ix.byId, ix.byUuid, UuidKey, b);
    FiledAdd(ix.byId, ix.byUsername, NameKey, b);
    FiledAdd(ix.byId, ix.byBannedBy, IssuerKey, b);
    FiledAdd(ix.byId, ix.byExpiry, ExpiryKey, b);
  }

  /** Removing a ban keeps the index coherent. */
  lemma {:induction false} RemoveConsistent(ix: Index, id: string)
    requires Consistent(ix)
    ensures Consistent(Remove(ix, id).index)
  {
    if id in ix.byId {
      FiledRemove(ix.byId, ix.byIp, IpKey, id);
      FiledRemove(ix.byId, ix.byUuid, UuidKey, id);
      FiledRemove(ix.byId, ix.byUsername, NameKey, id);
      FiledRemove(ix.byId, ix.byBannedBy, IssuerKey, id);
      FiledRemove(ix.byId, ix.byExpiry, ExpiryKey, id);
    }
  }

  /** After `add`, the ban is found by its id, its address, its UUID, its
      username in any ASCII case and its issuer. */
  lemma AddReachable(ix: Index, b: BanEntry, name: string)
    ensures var r := Add(ix, b);
            GetById(r, b.id) == Some(b)
            && (b.ip.Some? ==> b.id in GetByIp(r, b.ip.value))
            && (b.uuid.Some? ==> b.id in GetByUuid(r, b.uuid.value))
            && (b.username.Some? && EqIgnoreAsciiCase(name, b.username.value) ==> b.id in GetByUsername(r, name))
            && b.id in GetByBannedBy(r, b.bannedBy)
  {
  }

  /** After `remove`, the id is in no bucket at all. */
  lemma {:induction false} RemoveErases(ix: Index, id: string)
    requires Consistent(ix)
    ensures var r := Remove(ix, id).index;
            id !in r.byId
            && (forall k :: k in r.byIp ==> id !in r.byIp[k])
            && (forall k :: k in r.byUuid ==> id !in r.byUuid[k])
            && (forall k :: k in r.byUsername ==> id !in r.byUsername[k])
            && (forall k :: k in r.byBannedBy ==> id !in r.byBannedBy[k])
            && (forall k :: k in r.byExpiry ==> id !in r.byExpiry[k])
  {
    RemoveConsistent(ix, id);
  }

  /** `get_by_id` */
  function GetById(ix: Index, id: string): (r: Option<BanEntry>)
    ensures r.Some? <==> id in ix.byId
    ensures r.Some? ==> r.value == ix.byId[id]
  {
    if id in ix.byId then Some(ix.byId[id]) else None
  }

  /** `collect_bans_from_index`: the ids that still name a ban. */
  function Collect(ix: Index, ids: set<string>): (r: set<string>)
    ensures forall id :: id in r <==> id in ids && id in ix.byId
  {
    ids * ix.byId.Keys
  }

  /** `get_by_ip` */
  function GetByIp(ix: Index, ip: IpAddr): set<string> {
    Collect(ix, Bucket(ix.byIp, ip))
  }

  /** `get_by_uuid` */
  function GetByUuid(ix: Index, uuid: string): set<string> {
    Collect(ix, Bucket(ix.byUuid, uuid))
  }

  /** `get_by_username`: looked up lower-cased. */
  function GetByUsername(ix: Index, username: string): set<string> {
    Collect(ix, Bucket(ix.byUsername, ToLower(username)))
  }

  /** `get_by_banned_by` */
  function GetByBannedBy(ix: Index, bannedBy: string): set<string> {
    Collect(ix, Bucket(ix.byBannedBy, bannedBy))
  }

  /** In a coherent index the lookups find exactly the bans that match. */
  lemma {:induction false} LookupsExact(ix: Index, ip: IpAddr, uuid: string, username: string, bannedBy: string)
    requires Consistent(ix)
    ensures forall id :: id in GetByIp(ix, ip) <==> id in ix.byId && MatchesIp(ix.byId[id], ip)
    ensures forall id :: id in GetByUuid(ix, uuid) <==> id in ix.byId && MatchesUuid(ix.byId[id], uuid)
    ensures forall id :: id in GetByUsername(ix, username) <==> id in ix.byId && MatchesUsername(ix.byId[id], username)
    ensures forall id :: id in GetByBannedBy(ix, bannedBy) <==> id in ix.byId && ix.byId[id].bannedBy == bannedBy
  {
    BucketExact(ix.byId, ix.byIp, IpKey, ip);
    BucketExact(ix.byId, ix.byUuid, UuidKey, uuid);
    BucketExact(ix.byId, ix.byUsername, NameKey, ToLower(username));
    BucketExact(ix.byId, ix.byBannedBy, IssuerKey, bannedBy);
  }

  /** In an index that agrees with the bans, the live ids of a bucket are
      exactly the bans with that key. */
  lemma BucketExact<K>(byId: map<string, BanEntry>, m: map<K, set<string>>, key: BanEntry -> Option<K>, k: K)
    requires Filed(byId, m, key)
    ensures forall id :: id in Bucket(m, k) && id in byId <==> id in byId && key(byId[id]) == Some(k)
  {
  }

  /** `get_expired`: the bans filed under an expiry time that has come. */
  function GetExpired(ix: Index, now: nat): (r: set<string>)
    ensures forall id :: id in r ==> id in ix.byId
  {
    set e, id | e in ix.byExpiry && id in ix.byExpiry[e] && e.Some? && e.value <= now && id in ix.byId :: id
  }

  /** `get_active`: the bans filed as permanent or under an expiry time
      still to come. */
  function GetActive(ix: Index, now: nat): (r: set<string>)
    ensures forall id :: id in r ==> id in ix.byId
  {
    set e, id | e in ix.byExpiry && id in ix.byExpiry[e] && (e.None? || e.value > now) && id in ix.byId :: id
  }

  /** In a coherent index `get_expired` and `get_active` find exactly the
      expired and the active bans, so together they split all bans. */
  lemma {:induction false} ActiveExpiredPartition(ix: Index, now: nat)
    requires Consistent(ix)
    ensures forall id :: id in GetExpired(ix, now) <==> id in ix.byId && IsExpired(ix.byId[id], now)
    ensures forall id :: id in GetActive(ix, now) <==> id in ix.byId && IsActive(ix.byId[id], now)
    ensures GetActive(ix, now) + GetExpired(ix, now) == ix.byId.Keys
    ensures GetActive(ix, now) * GetExpired(ix, now) == {}
  {
    forall id | id in ix.byId
      ensures id in GetExpired(ix, now) <==> IsExpired(ix.byId[id], now)
      ensures id in GetActive(ix, now) <==> IsActive(ix.byId[id], now)
    {
      FiledUnderOwnExpiry(ix, now, id);
    }
  }

  /** A ban is filed under its own expiry time and no other, so it is in
      `get_expired` or `get_active` as its own expiry time says. */
  lemma FiledUnderOwnExpiry(ix: Index, now: nat, id: string)
    requires Filed(ix.byId, ix.byExpiry, ExpiryKey) && id in ix.byId
    ensures id in GetExpired(ix, now) <==> IsExpired(ix.byId[id], now)
    ensures id in GetActive(ix, now) <==> IsActive(ix.byId[id], now)
  {
    var e := ix.byId[id].expiresAt;
    assert id in Bucket(ix.byExpiry, ExpiryKey(ix.byId[id]).value);
    assert e in ix.byExpiry && id in ix.byExpiry[e];
    assert forall e' :: e' in ix.byExpiry && id in ix.byExpiry[e'] ==> e' == e by {
      forall e' | e' in ix.byExpiry && id in ix.byExpiry[e'] ensures e' == e {
        assert ExpiryKey(ix.byId[id]) == Some(e');
      }
    }
  }

  /** `is_ip_banned`: some ban filed under the address is active. */
  function IsIpBanned(ix: Index, ip: IpAddr, now: nat): (r: bool)
    ensures r <==> exists id :: id in GetByIp(ix, ip) && IsActive(ix.byId[id], now)
  {
    exists id :: id in GetByIp(ix, ip) && IsActive(ix.byId[id], now)
  }

  /** `is_uuid_banned` */
  function IsUuidBanned(ix: Index, uuid: string, now: nat): (r: bool)
    ensures r <==> exists id :: id in GetByUuid(ix, uuid) && IsActive(ix.byId[id], now)
  {
    exists id :: id in GetByUuid(ix, uuid) && IsActive(ix.byId[id], now)
  }

  /** `is_username_banned`: looked up lower-cased. */
  function IsUsernameBanned(ix: Index, username: string, now: nat): (r: bool)
    ensures r <==> exists id :: id in GetByUsername(ix, username) && IsActive(ix.byId[id], now)
  {
    exists id :: id in GetByUsername(ix, username) && IsActive(ix.byId[id], now)
  }

  /** In a coherent index an address, UUID or username is banned exactly
      when some active ban matches it; the username in any ASCII case. */
  lemma {:induction false} BannedIffActiveMatch(ix: Index, ip: IpAddr, uuid: string, username: string, now: nat)
    requires Consistent(ix)
    ensures IsIpBanned(ix, ip, now) <==> exists id :: id in ix.byId && MatchesIp(ix.byId[id], ip) && IsActive(ix.byId[id], now)
    ensures IsUuidBanned(ix, uuid, now)
            <==> exists id :: id in ix.byId && MatchesUuid(ix.byId[id], uuid) && IsActive(ix.byId[id], now)
    ensures IsUsernameBanned(ix, username, now)
            <==> exists id :: id in ix.byId && MatchesUsername(ix.byId[id], username) && IsActive(ix.byId[id], now)
  {
    LookupsExact(ix, ip, uuid, username, "");
  }

  /** `apply_search_filters` for one ban: every criterion given holds, the
      reason compared lower-cased. */
  predicate SearchMatches(b: BanEntry, q: SearchQuery) {
    (q.ip.Some? ==> b.ip == q.ip)
    && (q.uuid.Some? ==> b.uuid == q.uuid)
    && (q.username.Some? ==> MatchesUsername(b, q.username.value))
    && (q.reasonContains.Some? ==> Contains(ToLower(b.reason), ToLower(q.reasonContains.value)))
    && (q.bannedBy.Some? ==> b.bannedBy == q.bannedBy.value)
  }

  /** `search`: the candidates are the bucket of the first criterion given
      among address, UUID, username and issuer (all bans when none is),
      then every criterion filters them.  Paging is the storage's. */
  function Search(ix: Index, q: SearchQuery): (r: set<string>)
    ensures forall id :: id in r ==> id in ix.byId && SearchMatches(ix.byId[id], q)
  {
    var candidates :=
      if q.ip.Some? then GetByIp(ix, q.ip.value)
      else if q.uuid.Some? then GetByUuid(ix, q.uuid.value)
      else if q.username.Some? then GetByUsername(ix, q.username.value)
      else if q.bannedBy.Some? then GetByBannedBy(ix, q.bannedBy.value)
      else ix.byId.Keys;
    set id | id in candidates && SearchMatches(ix.byId[id], q)
  }

  /** In a coherent index a search misses no ban that meets every
      criterion. */
  lemma {:induction false} SearchComplete(ix: Index, q: SearchQuery, id: string)
    requires Consistent(ix) && id in ix.byId && SearchMatches(ix.byId[id], q)
    ensures id in Search(ix, q)
  {
    var b := ix.byId[id];
    if q.ip.Some? {
      assert id in Bucket(ix.byIp, b.ip.value);
    } else if q.uuid.Some? {
      assert id in Bucket(ix.byUuid, b.uuid.value);
    } else if q.username.Some? {
      assert id in Bucket(ix.byUsername, ToLower(b.username.value));
    } else if q.bannedBy.Some? {
      assert id in Bucket(ix.byBannedBy, b.bannedBy);
    }
  }

  /** `count`: the number of bans. */
  function Count(ix: Index): (n: nat)
    ensures n == |ix.byId.Keys|
  {
    |ix.byId|
  }
}
