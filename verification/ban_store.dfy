/** The ban storage over its index (crates/infrarust_ban_system/src/file/adapter.rs)
    and the ban system's removal by key (crates/infrarust_ban_system/src/lib.rs).
    Writing the bans to disk, the dirty flag and the audit log are not part
    of this model: a store is its index. */
module BanStore {
  import opened Wrappers
  import opened Text
  import opened Net
  import opened Bans
  import opened BanIndex

  /** `add_ban` */
  function AddBan(ix: Index, b: BanEntry): (r: Index)
    ensures GetById(r, b.id) == Some(b)
    ensures forall id :: id in ix.byId && id != b.id ==> GetById(r, id) == GetById(ix, id)
  {
    Add(ix, b)
  }

  /** No later ban of the batch has the same id as ban i. */
  predicate LastOfId(bans: seq<BanEntry>, i: nat)
    requires i < |bans|
  {
    forall j :: i < j < |bans| ==> bans[j].id != bans[i].id
  }

  /** `add_bans_batch`: every ban in order, a later one replacing an
      earlier one with the same id. */
  function AddBansBatch(ix: Index, bans: seq<BanEntry>): (r: Index)
    ensures r.byId.Keys == ix.byId.Keys + set b | b in bans :: b.id
    ensures forall id :: id in ix.byId && (forall b :: b in bans ==> b.id != id) ==> r.byId[id] == ix.byId[id]
    ensures bans == [] ==> r == ix
    decreases |bans|
  {
    if bans == [] then ix else AddBansBatch(Add(ix, bans[0]), bans[1..])
  }

  /** A batch stores each of its bans that no later ban of the batch
      replaces. */
  lemma {:induction false} AddBansBatchLastWins(ix: Index, bans: seq<BanEntry>)
    ensures var r := AddBansBatch(ix, bans);
            forall i :: 0 <= i < |bans| && LastOfId(bans, i) ==> bans[i].id in r.byId && r.byId[bans[i].id] == bans[i]
    decreases |bans|
  {
    if bans != [] {
      var first := Add(ix, bans[0]);
      AddBansBatchLastWins(first, bans[1..]);
      var r := AddBansBatch(ix, bans);
      assert r == AddBansBatch(first, bans[1..]);
      assert bans[0] in bans;
      BatchStepLast(bans, r);
    }
  }

  /** The step of `AddBansBatch` for the bans it stores: the first one when
      no later ban shares its id, and those the rest stores. */
  lemma BatchStepLast(bans: seq<BanEntry>, r: Index)
    requires bans != []
    requires bans[0].id in r.byId
    requires (forall b :: b in bans[1..] ==> b.id != bans[0].id) ==> r.byId[bans[0].id] == bans[0]
    requires forall i :: 0 <= i < |bans[1..]| && LastOfId(bans[1..], i)
               ==> bans[1..][i].id in r.byId && r.byId[bans[1..][i].id] == bans[1..][i]
    ensures forall i :: 0 <= i < |bans| && LastOfId(bans, i) ==> bans[i].id in r.byId && r.byId[bans[i].id] == bans[i]
  {
    var rest := bans[1..];
    forall i | 0 <= i < |bans| && LastOfId(bans, i) ensures bans[i].id in r.byId && r.byId[bans[i].id] == bans[i] {
      if i == 0 {
        forall b | b in rest ensures b.id != bans[0].id {
          var j :| 0 <= j < |rest| && rest[j] == b;
          assert bans[j + 1] == b;
        }
      } else {
        assert bans[i] == rest[i - 1];
        assert LastOfId(rest, i - 1) by {
          forall j | i - 1 < j < |rest| ensures rest[j].id != rest[i - 1].id {
            assert rest[j] == bans[j + 1];
          }
        }
      }
    }
  }

  /** Adding a batch of bans with fresh, distinct ids keeps the index
      coherent. */
  lemma {:induction false} AddBansBatchConsistent(ix: Index, bans: seq<BanEntry>)
    requires Consistent(ix)
    requires forall i :: 0 <= i < |bans| ==> bans[i].id !in ix.byId
    requires forall i, j :: 0 <= i < j < |bans| ==> bans[i].id != bans[j].id
    ensures Consistent(AddBansBatch(ix, bans))
    decreases |bans|
  {
    if bans != [] {
      AddConsistent(ix, bans[0]);
      AddBansBatchConsistent(Add(ix, bans[0]), bans[1..]);
    }
  }

  /** `remove_ban`: the ban removed, or NotFound. */
  function RemoveBan(ix: Index, id: string): (r: Result<(BanEntry, Index), BanError>)
    ensures r.Err? <==> id !in ix.byId
    ensures r.Err? ==> r.error == NotFound
    ensures r.Ok? ==> r.value.0 == ix.byId[id] && r.value.1.byId == ix.byId - {id}
  {
    var removal := Remove(ix, id);
    match removal.removed
    case None => Err(NotFound)
    case Some(b) => Ok((b, removal.index))
  }

  /** `get_ban_by_id` */
  function GetBan(ix: Index, id: string): (r: Result<BanEntry, BanError>)
    ensures r.Err? <==> id !in ix.byId
    ensures r.Err? ==> r.error == NotFound
    ensures r.Ok? ==> r.value == ix.byId[id]
  {
    match GetById(ix, id)
    case Some(b) => Ok(b)
    case None => Err(NotFound)
  }

  /** Removing a ban just added gives it back and leaves the ids as they
      were. */
  lemma RemoveUndoesAdd(ix: Index, b: BanEntry)
    requires b.id !in ix.byId
    ensures var r := RemoveBan(AddBan(ix, b), b.id);
            r.Ok? && r.value.0 == b && r.value.1.byId == ix.byId
  {
    assert ix.byId[b.id := b] - {b.id} == ix.byId;
  }

  /** The body of `get_ban_reason_for_*`: the reason of an active ban
      among `ids`, the first one met in the hash set's order, which the
      model leaves open. */
  method ReasonAmong(ix: Index, ids: set<string>, now: nat) returns (r: Option<string>)
    requires ids <= ix.byId.Keys
    ensures r.Some? <==> exists id :: id in ids && IsActive(ix.byId[id], now)
    ensures r.Some? ==> exists id :: id in ids && IsActive(ix.byId[id], now) && ix.byId[id].reason == r.value
  {
    var todo := ids;
    while todo != {}
      invariant todo <= ids
      invariant forall id :: id in ids - todo ==> !IsActive(ix.byId[id], now)
      decreases todo
    {
      var id :| id in todo;
      if IsActive(ix.byId[id], now) {
        return Some(ix.byId[id].reason);
      }
      todo := todo - {id};
    }
    return None;
  }

  /** `get_ban_reason_for_ip`: a reason exactly when the address is banned. */
  method ReasonForIp(ix: Index, ip: IpAddr, now: nat) returns (r: Option<string>)
    ensures r.Some? <==> IsIpBanned(ix, ip, now)
    ensures r.Some? ==> exists id :: id in GetByIp(ix, ip) && IsActive(ix.byId[id], now) && ix.byId[id].reason == r.value
  {
    r := ReasonAmong(ix, GetByIp(ix, ip), now);
  }

  /** `get_ban_reason_for_uuid` */
  method ReasonForUuid(ix: Index, uuid: string, now: nat) returns (r: Option<string>)
    ensures r.Some? <==> IsUuidBanned(ix, uuid, now)
    ensures r.Some? ==> exists id :: id in GetByUuid(ix, uuid) && IsActive(ix.byId[id], now) && ix.byId[id].reason == r.value
  {
    r := ReasonAmong(ix, GetByUuid(ix, uuid), now);
  }

  /** `get_ban_reason_for_username` */
  method ReasonForUsername(ix: Index, username: string, now: nat) returns (r: Option<string>)
    ensures r.Some? <==> IsUsernameBanned(ix, username, now)
    ensures r.Some? ==> exists id :: id in GetByUsername(ix, username) && IsActive(ix.byId[id], now)
                                     && ix.byId[id].reason == r.value
  {
    r := ReasonAmong(ix, GetByUsername(ix, username), now);
  }

  /** In a coherent index every ban is filed under its own id. */
  lemma ConsistentIds(ix: Index, id: string)
    requires Consistent(ix) && id in ix.byId
    ensures ix.byId[id].id == id
  {
  }

  /** A page of results and the number of results in all. */
  datatype Page<T> = Page(items: seq<T>, total: nat)

  /** The paging of `get_active_bans_paged` and `search_bans`: page
      `page` of `pageSize` items, empty once it starts past the end.  The
      source multiplies in `usize`; here the product is unbounded. */
  function Paginate<T>(items: seq<T>, page: nat, pageSize: nat): (r: Page<T>)
    ensures r.total == |items|
    ensures |r.items| <= pageSize
    ensures page * pageSize >= |items| ==> r.items == []
    ensures page * pageSize < |items|
            ==> |r.items| == (if page * pageSize + pageSize <= |items| then pageSize else |items| - page * pageSize)
    ensures forall j :: 0 <= j < |r.items| ==> page * pageSize + j < |items| && r.items[j] == items[page * pageSize + j]
  {
    Page(Window(items, page * pageSize, pageSize), |items|)
  }

  /** The at most `size` items from position `start` on. */
  function Window<T>(items: seq<T>, start: nat, size: nat): (r: seq<T>)
    ensures |r| <= size
    ensures start >= |items| ==> r == []
    ensures start < |items| ==> |r| == (if start + size <= |items| then size else |items| - start)
    ensures forall j :: 0 <= j < |r| ==> start + j < |items| && r[j] == items[start + j]
  {
    var end := if start + size < |items| then start + size else |items|;
    if start >= |items| then [] else items[start..end]
  }

  /** Every item is on exactly the page its position says. */
  lemma PagesCover<T>(items: seq<T>, pageSize: nat, k: nat)
    requires 0 < pageSize && k < |items|
    ensures var p := Paginate(items, k / pageSize, pageSize);
            k % pageSize < |p.items| && p.items[k % pageSize] == items[k]
  {
    var page := k / pageSize;
    assert page * pageSize + k % pageSize == k;
  }

  /** The ids of a set in some order, each once: the order in which the
      source's hash maps hand them out is left open. */
  method Enumerate(ids: set<string>) returns (r: seq<string>)
    ensures |r| == |ids|
    ensures forall id :: id in r <==> id in ids
    ensures forall i, j :: 0 <= i < j < |r| ==> r[i] != r[j]
  {
    r := [];
    var todo := ids;
    while todo != {}
      invariant todo <= ids
      invariant forall id :: id in r <==> id in ids - todo
      invariant forall i, j :: 0 <= i < j < |r| ==> r[i] != r[j]
      invariant |r| + |todo| == |ids|
      decreases todo
    {
      var id :| id in todo;
      r := r + [id];
      todo := todo - {id};
    }
  }

  /** The bans of `ids` in the order of `order`. */
  function Entries(ix: Index, order: seq<string>): (r: seq<BanEntry>)
    requires forall id :: id in order ==> id in ix.byId
    ensures |r| == |order|
    ensures forall i :: 0 <= i < |order| ==> r[i] == ix.byId[order[i]]
  {
    seq(|order|, i requires 0 <= i < |order| => ix.byId[order[i]])
  }

  /** A page of the bans of `ids`, taken in some order of the ids, and how
      many there are in all. */
  method PageOf(ix: Index, ids: set<string>, page: nat, pageSize: nat) returns (r: Page<BanEntry>)
    requires ids <= ix.byId.Keys
    ensures r.total == |ids|
    ensures |r.items| <= pageSize
    ensures page * pageSize >= r.total ==> r.items == []
    ensures page * pageSize < r.total
            ==> |r.items| == (if page * pageSize + pageSize <= r.total then pageSize else r.total - page * pageSize)
    ensures forall b :: b in r.items ==> exists id :: id in ids && ix.byId[id] == b
    ensures Consistent(ix) ==> forall i, j :: 0 <= i < j < |r.items| ==> r.items[i].id != r.items[j].id
  {
    var order := Enumerate(ids);
    r := Paginate(Entries(ix, order), page, pageSize);
    PageMembers(ix, ids, order, page, pageSize);
    PageDistinct(ix, order, page, pageSize);
  }

  /** Item j of a page of bans is the ban of the id at the page's start
      plus j. */
  lemma PagedEntries(ix: Index, order: seq<string>, page: nat, pageSize: nat)
    requires forall id :: id in order ==> id in ix.byId
    ensures var items := Paginate(Entries(ix, order), page, pageSize).items;
            forall j :: 0 <= j < |items| ==> page * pageSize + j < |order| && items[j] == ix.byId[order[page * pageSize + j]]
  {
  }

  /** Every ban on a page is the ban of one of the ids paged. */
  lemma PageMembers(ix: Index, ids: set<string>, order: seq<string>, page: nat, pageSize: nat)
    requires ids <= ix.byId.Keys
    requires forall id :: id in order <==> id in ids
    ensures forall b :: b in Paginate(Entries(ix, order), page, pageSize).items ==> exists id :: id in ids && ix.byId[id] == b
  {
    hide *;
    var items := Paginate(Entries(ix, order), page, pageSize).items;
    PagedEntries(ix, order, page, pageSize);
    forall b | b in items ensures exists id :: id in ids && ix.byId[id] == b {
      var j :| 0 <= j < |items| && items[j] == b;
      assert order[page * pageSize + j] in order;
    }
  }

  /** In a coherent index, the bans of distinct ids on a page are distinct. */
  lemma PageDistinct(ix: Index, order: seq<string>, page: nat, pageSize: nat)
    requires forall id :: id in order ==> id in ix.byId
    requires forall i, j :: 0 <= i < j < |order| ==> order[i] != order[j]
    ensures var items := Paginate(Entries(ix, order), page, pageSize).items;
            Consistent(ix) ==> forall i, j :: 0 <= i < j < |items| ==> items[i].id != items[j].id
  {
    hide *;
    var items := Paginate(Entries(ix, order), page, pageSize).items;
    var k := page * pageSize;
    PagedEntries(ix, order, page, pageSize);
    if Consistent(ix) {
      forall i, j | 0 <= i < j < |items| ensures items[i].id != items[j].id {
        ConsistentIds(ix, order[k + i]);
        ConsistentIds(ix, order[k + j]);
      }
    }
  }

  /** `get_active_bans_paged`: a page of the active bans, and how many
      active bans there are. */
  method ActiveBansPaged(ix: Index, page: nat, pageSize: nat, now: nat) returns (r: Page<BanEntry>)
    ensures r.total == |GetActive(ix, now)|
    ensures |r.items| <= pageSize
    ensures page * pageSize >= r.total ==> r.items == []
    ensures page * pageSize < r.total
            ==> |r.items| == (if page * pageSize + pageSize <= r.total then pageSize else r.total - page * pageSize)
    ensures forall b :: b in r.items ==> exists id :: id in GetActive(ix, now) && ix.byId[id] == b
    ensures Consistent(ix) ==> forall i, j :: 0 <= i < j < |r.items| ==> r.items[i].id != r.items[j].id
  {
    r := PageOf(ix, GetActive(ix, now), page, pageSize);
  }

  /** `search_bans`: a page of the search's results, and how many there
      are; every result meets every criterion. */
  method SearchBans(ix: Index, q: SearchQuery) returns (r: Page<BanEntry>)
    ensures r.total == |Search(ix, q)|
    ensures |r.items| <= q.pageSize
    ensures q.page * q.pageSize >= r.total ==> r.items == []
    ensures q.page * q.pageSize < r.total
            ==> |r.items| == (if q.page * q.pageSize + q.pageSize <= r.total then q.pageSize else r.total - q.page * q.pageSize)
    ensures forall b :: b in r.items ==> SearchMatches(b, q) && exists id :: id in ix.byId && ix.byId[id] == b
    ensures Consistent(ix) ==> forall i, j :: 0 <= i < j < |r.items| ==> r.items[i].id != r.items[j].id
  {
    r := PageOf(ix, Search(ix, q), q.page, q.pageSize);
    forall b | b in r.items ensures SearchMatches(b, q) && exists id :: id in ix.byId && ix.byId[id] == b {
      var id :| id in Search(ix, q) && ix.byId[id] == b;
    }
  }

  /** `BanStatistics` */
  datatype Statistics = Statistics(
    totalBans: nat,
    activeBans: nat,
    expiredBans: nat,
    permanentBans: nat,
    temporaryBans: nat,
    ipBans: nat,
    uuidBans: nat,
    usernameBans: nat)

  predicate IsPermanent(b: BanEntry) { b.expiresAt.None? }
  predicate IsTemporary(b: BanEntry) { b.expiresAt.Some? }
  predicate HasIp(b: BanEntry) { b.ip.Some? }
  predicate HasUuid(b: BanEntry) { b.uuid.Some? }
  predicate HasUsername(b: BanEntry) { b.username.Some? }

  /** The ids of the bans with a property. */
  function IdsWhere(ix: Index, p: BanEntry -> bool): (r: set<string>)
    ensures forall id :: id in r <==> id in ix.byId && p(ix.byId[id])
  {
    set id | id in ix.byId && p(ix.byId[id])
  }

  /** `get_statistics`: counts over all bans, and the sizes of
      `get_active` and `get_expired`. */
  function GetStatistics(ix: Index, now: nat): (r: Statistics)
    ensures r.totalBans == |ix.byId|
    ensures r.activeBans == |GetActive(ix, now)| && r.expiredBans == |GetExpired(ix, now)|
    ensures r.permanentBans == |IdsWhere(ix, IsPermanent)| && r.temporaryBans == |IdsWhere(ix, IsTemporary)|
    ensures r.ipBans == |IdsWhere(ix, HasIp)| && r.uuidBans == |IdsWhere(ix, HasUuid)|
    ensures r.usernameBans == |IdsWhere(ix, HasUsername)|
  {
    Statistics(
      |ix.byId|, |GetActive(ix, now)|, |GetExpired(ix, now)|,
      |IdsWhere(ix, IsPermanent)|, |IdsWhere(ix, IsTemporary)|,
      |IdsWhere(ix, HasIp)|, |IdsWhere(ix, HasUuid)|, |IdsWhere(ix, HasUsername)|)
  }

  /** Every ban is permanent or temporary, and in a coherent index active
      or expired, and never both; no kind of ban outnumbers the bans. */
  lemma {:induction false} StatisticsAddUp(ix: Index, now: nat)
    requires Consistent(ix)
    ensures var s := GetStatistics(ix, now);
            s.permanentBans + s.temporaryBans == s.totalBans
            && s.activeBans + s.expiredBans == s.totalBans
            && s.ipBans <= s.totalBans && s.uuidBans <= s.totalBans && s.usernameBans <= s.totalBans
  {
    var permanent := IdsWhere(ix, IsPermanent);
    var temporary := IdsWhere(ix, IsTemporary);
    assert permanent + temporary == ix.byId.Keys;
    assert permanent * temporary == {};
    ActiveExpiredPartition(ix, now);
    SubsetSize(IdsWhere(ix, HasIp), ix.byId.Keys);
    SubsetSize(IdsWhere(ix, HasUuid), ix.byId.Keys);
    SubsetSize(IdsWhere(ix, HasUsername), ix.byId.Keys);
  }

  lemma {:induction false} SubsetSize(a: set<string>, b: set<string>)
    requires a <= b
    ensures |a| <= |b|
  {
    assert b == a + (b - a);
  }

  /** Remove every ban of `ids`, one after the other. */
  method RemoveAll(ix: Index, ids: set<string>) returns (r: Index)
    requires Consistent(ix)
    ensures Consistent(r)
    ensures r.byId.Keys == ix.byId.Keys - ids
    ensures forall id :: id in r.byId ==> r.byId[id] == ix.byId[id]
  {
    hide Consistent;
    r := ix;
    var todo := ids;
    while todo != {}
      invariant todo <= ids && Consistent(r)
      invariant r.byId.Keys == ix.byId.Keys - (ids - todo)
      invariant forall id :: id in r.byId ==> r.byId[id] == ix.byId[id]
      decreases todo
    {
      var id :| id in todo;
      RemoveConsistent(r, id);
      r := Remove(r, id).index;
      todo := todo - {id};
    }
  }

  /** `clear_expired_bans`: remove the expired bans and say how many
      there were. */
  method ClearExpired(ix: Index, now: nat) returns (count: nat, r: Index)
    requires Consistent(ix)
    ensures count == |GetExpired(ix, now)|
    ensures Consistent(r) && GetExpired(r, now) == {}
    ensures forall id :: id in r.byId <==> id in ix.byId && IsActive(ix.byId[id], now)
    ensures forall id :: id in r.byId ==> r.byId[id] == ix.byId[id]
  {
    var expired := GetExpired(ix, now);
    count := |expired|;
    r := RemoveAll(ix, expired);
    ActiveExpiredPartition(ix, now);
    ActiveExpiredPartition(r, now);
  }

  /** `remove_bans_internal` after a lookup: NotFound when the lookup
      found nothing, otherwise every ban found is removed. */
  method RemoveFound(ix: Index, found: set<string>) returns (r: Result<(set<string>, Index), BanError>)
    requires Consistent(ix) && found <= ix.byId.Keys
    ensures r.Err? <==> found == {}
    ensures r.Err? ==> r.error == NotFound
    ensures r.Ok? ==> r.value.0 == found && Consistent(r.value.1) && r.value.1.byId.Keys == ix.byId.Keys - found
    ensures r.Ok? ==> forall id :: id in r.value.1.byId ==> r.value.1.byId[id] == ix.byId[id]
  {
    if found == {} {
      return Err(NotFound);
    }
    var rest := RemoveAll(ix, found);
    return Ok((found, rest));
  }

  /** `remove_ban_by_ip`: afterwards no ban names the address, and so it
      is not banned at any time. */
  method RemoveBansByIp(ix: Index, ip: IpAddr) returns (r: Result<(set<string>, Index), BanError>)
    requires Consistent(ix)
    ensures r.Err? <==> GetByIp(ix, ip) == {}
    ensures r.Err? ==> r.error == NotFound
    ensures r.Ok? ==> r.value.0 == GetByIp(ix, ip) && Consistent(r.value.1)
    ensures r.Ok? ==> r.value.1.byId.Keys == ix.byId.Keys - r.value.0
    ensures r.Ok? ==> forall id :: id in r.value.1.byId ==> r.value.1.byId[id] == ix.byId[id]
    ensures r.Ok? ==> GetByIp(r.value.1, ip) == {} && forall now :: !IsIpBanned(r.value.1, ip, now)
  {
    hide Consistent;
    r := RemoveFound(ix, GetByIp(ix, ip));
    if r.Ok? {
      var rest := r.value.1;
      LookupsExact(ix, ip, "", "", "");
      LookupsExact(rest, ip, "", "", "");
      forall id | id in rest.byId ensures !MatchesIp(rest.byId[id], ip) {
        assert id !in GetByIp(ix, ip);
      }
    }
  }

  /** `remove_ban_by_uuid` */
  method RemoveBansByUuid(ix: Index, uuid: string) returns (r: Result<(set<string>, Index), BanError>)
    requires Consistent(ix)
    ensures r.Err? <==> GetByUuid(ix, uuid) == {}
    ensures r.Err? ==> r.error == NotFound
    ensures r.Ok? ==> r.value.0 == GetByUuid(ix, uuid) && Consistent(r.value.1)
    ensures r.Ok? ==> r.value.1.byId.Keys == ix.byId.Keys - r.value.0
    ensures r.Ok? ==> forall id :: id in r.value.1.byId ==> r.value.1.byId[id] == ix.byId[id]
    ensures r.Ok? ==> GetByUuid(r.value.1, uuid) == {} && forall now :: !IsUuidBanned(r.value.1, uuid, now)
  {
    hide Consistent;
    r := RemoveFound(ix, GetByUuid(ix, uuid));
    if r.Ok? {
      var rest := r.value.1;
      LookupsExact(ix, Net.V4([0, 0, 0, 0]), uuid, "", "");
      LookupsExact(rest, Net.V4([0, 0, 0, 0]), uuid, "", "");
      forall id | id in rest.byId ensures !MatchesUuid(rest.byId[id], uuid) {
        assert id !in GetByUuid(ix, uuid);
      }
    }
  }

  /** `remove_ban_by_username`: in any ASCII case. */
  method RemoveBansByUsername(ix: Index, username: string) returns (r: Result<(set<string>, Index), BanError>)
    requires Consistent(ix)
    ensures r.Err? <==> GetByUsername(ix, username) == {}
    ensures r.Err? ==> r.error == NotFound
    ensures r.Ok? ==> r.value.0 == GetByUsername(ix, username) && Consistent(r.value.1)
    ensures r.Ok? ==> r.value.1.byId.Keys == ix.byId.Keys - r.value.0
    ensures r.Ok? ==> forall id :: id in r.value.1.byId ==> r.value.1.byId[id] == ix.byId[id]
    ensures r.Ok? ==> GetByUsername(r.value.1, username) == {} && forall now :: !IsUsernameBanned(r.value.1, username, now)
  {
    hide Consistent;
    r := RemoveFound(ix, GetByUsername(ix, username));
    if r.Ok? {
      var rest := r.value.1;
      LookupsExact(ix, Net.V4([0, 0, 0, 0]), "", username, "");
      LookupsExact(rest, Net.V4([0, 0, 0, 0]), "", username, "");
      forall id | id in rest.byId ensures !MatchesUsername(rest.byId[id], username) {
        assert id !in GetByUsername(ix, username);
      }
    }
  }
}
