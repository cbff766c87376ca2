/** A ban and the questions asked of one
    (crates/infrarust_ban_system/src/lib.rs).  Timestamps are whole
    seconds since the Unix epoch; "now" is a parameter, and so is the
    random UUID a new ban is given as its id. */
module Bans {
  import opened Wrappers
  import opened Text
  import opened Net
  import opened Bytes

  /** `BanEntry` */
  datatype BanEntry = BanEntry(
    id: string,
    ip: Option<IpAddr>,
    uuid: Option<string>,
    username: Option<string>,
    reason: string,
    createdAt: nat,
    expiresAt: Option<nat>,
    bannedBy: string)

  /** `BanError`, without the texts of storage, I/O and serialisation
      failures. */
  datatype BanError = Storage | InvalidEntry | Io | Serialization | NotFound | AlreadyExists

  /** `BanEntry::new`: created now, expiring `expiresIn` seconds later or
      never.  The expiry is a `u64` sum, which wraps past 2^64 as a
      release build does. */
  function NewBan(id: string, ip: Option<IpAddr>, uuid: Option<string>, username: Option<string>,
                  reason: string, expiresIn: Option<u64>, bannedBy: string, now: u64): (b: BanEntry)
    ensures b.id == id && b.ip == ip && b.uuid == uuid && b.username == username
    ensures b.reason == reason && b.bannedBy == bannedBy && b.createdAt == now
    ensures b.expiresAt.None? <==> expiresIn.None?
    ensures b.expiresAt.Some? ==> b.expiresAt.value < TWO_64
    ensures expiresIn.Some? && now + expiresIn.value < TWO_64
            ==> b.expiresAt.value - b.createdAt == expiresIn.value
    ensures expiresIn.Some? && now + expiresIn.value >= TWO_64
            ==> b.expiresAt.value == now + expiresIn.value - TWO_64 && b.expiresAt.value < b.createdAt
  {
    BanEntry(id, ip, uuid, username, reason, now,
             if expiresIn.Some? then Some((now + expiresIn.value) % TWO_64) else None, bannedBy)
  }

  /** `is_expired`: a temporary ban whose expiry time has come. */
  predicate IsExpired(b: BanEntry, now: nat) {
    b.expiresAt.Some? && now >= b.expiresAt.value
  }

  /** The index's `is_ban_active`: permanent, or expiring after now. */
  predicate IsActive(b: BanEntry, now: nat) {
    b.expiresAt.None? || b.expiresAt.value > now
  }

  /** A ban is active exactly when it has not expired. */
  lemma ActiveIffNotExpired(b: BanEntry, now: nat)
    ensures IsActive(b, now) <==> !IsExpired(b, now)
  {
  }

  /** A permanent ban never expires, and a temporary one stays expired. */
  lemma ExpiryIsPermanent(b: BanEntry, now: nat, later: nat)
    requires now <= later
    ensures b.expiresAt.None? ==> !IsExpired(b, later)
    ensures IsExpired(b, now) ==> IsExpired(b, later)
  {
  }

  /** `matches_ip`: a ban without an address matches none. */
  function MatchesIp(b: BanEntry, ip: IpAddr): (r: bool)
    ensures r <==> b.ip == Some(ip)
  {
    match b.ip
    case Some(banned) => banned == ip
    case None => false
  }

  /** `matches_uuid`: exact comparison. */
  function MatchesUuid(b: BanEntry, uuid: string): (r: bool)
    ensures r <==> b.uuid == Some(uuid)
  {
    match b.uuid
    case Some(banned) => banned == uuid
    case None => false
  }

  /** `matches_username`: ASCII case is ignored. */
  function MatchesUsername(b: BanEntry, username: string): (r: bool)
    ensures r <==> b.username.Some? && ToLower(b.username.value) == ToLower(username)
  {
    match b.username
    case Some(banned) => EqIgnoreAsciiCase(banned, username)
    case None => false
  }

  /** A ban on a name matches that name in any ASCII case. */
  lemma UsernameMatchIgnoresCase(b: BanEntry, name: string, other: string)
    requires b.username == Some(name) && EqIgnoreAsciiCase(name, other)
    ensures MatchesUsername(b, other) && MatchesUsername(b, name)
  {
  }

  /** `time_until_expiry`: none for a permanent ban, zero once expired. */
  function TimeUntilExpiry(b: BanEntry, now: nat): (r: Option<nat>)
    ensures r.None? <==> b.expiresAt.None?
    ensures r.Some? && now < b.expiresAt.value ==> now + r.value == b.expiresAt.value
    ensures r.Some? && now >= b.expiresAt.value ==> r.value == 0
  {
    match b.expiresAt
    case None => None
    case Some(expiresAt) => Some(if now >= expiresAt then 0 else expiresAt - now)
  }

  /** The time left is zero exactly when a temporary ban has expired. */
  lemma TimeLeftZeroIffExpired(b: BanEntry, now: nat)
    requires b.expiresAt.Some?
    ensures TimeUntilExpiry(b, now) == Some(0) <==> IsExpired(b, now)
  {
  }

  /** A fresh temporary ban has exactly its duration left when created,
      and is not expired while any of it is left. */
  lemma NewBanCountsDown(id: string, ip: Option<IpAddr>, uuid: Option<string>, username: Option<string>,
                         reason: string, duration: u64, bannedBy: string, now: u64, later: nat)
    requires later < now + duration
    ensures var b := NewBan(id, ip, uuid, username, reason, Some(duration), bannedBy, now);
            now + duration < TWO_64
            ==> TimeUntilExpiry(b, now) == Some(duration) && !IsExpired(b, later) && IsActive(b, later)
  {
  }

  /** A duration that carries the expiry past 2^64 wraps it to before
      the creation time: the ban is expired from the moment it is made. */
  lemma NewBanWrapsExpired(id: string, ip: Option<IpAddr>, uuid: Option<string>, username: Option<string>,
                           reason: string, duration: u64, bannedBy: string, now: u64)
    requires now + duration >= TWO_64
    ensures var b := NewBan(id, ip, uuid, username, reason, Some(duration), bannedBy, now);
            IsExpired(b, now) && !IsActive(b, now) && TimeUntilExpiry(b, now) == Some(0)
  {
  }

  /** `SearchBansQuery`: the criteria of a ban search and the page wanted. */
  datatype SearchQuery = SearchQuery(
    ip: Option<IpAddr>,
    uuid: Option<string>,
    username: Option<string>,
    reasonContains: Option<string>,
    bannedBy: Option<string>,
    page: nat,
    pageSize: nat)

  /** `SearchBansQuery::new`: no criteria, the first page of 50. */
  function NewQuery(): (q: SearchQuery)
    ensures q.ip.None? && q.uuid.None? && q.username.None? && q.reasonContains.None? && q.bannedBy.None?
    ensures q.page == 0 && q.pageSize == 50
  {
    SearchQuery(None, None, None, None, None, 0, 50)
  }
}
