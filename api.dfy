/**
 * The `VahsetAPI` service object: an insertion-ordered store of user records
 * keyed by user id, filled by a full reload from the dump files, read by id,
 * by substring and by a list of ids, and extended one record at a time by a
 * live lookup when an id is not in the store.
 */
module Api {
  import opened Optional
  import opened PyStr
  import opened LineParser
  import opened OrderedDict
  import opened Sources

  /** Seconds a cache file stays fresh. */
  const CACHE_TTL: int := 3600
  /** Records the store may hold before a live insert evicts the oldest. */
  const MAX_CACHE_SIZE: int := 1000000
  /** Results `search` returns at most. */
  const SEARCH_LIMIT: int := 50

  // ---------------------------------------------------------------------------
  // Cache freshness

  /** `time.time() - file_time < CACHE_TTL`, in whole seconds: the file is younger than the TTL. */
  predicate IsFresh(now: int, mtime: int) {
    now - mtime < CACHE_TTL
  }

  /** What the cache file holds: its modification time and its records, None when it cannot be read. */
  datatype CacheFile = CacheFile(mtime: int, contents: Option<seq<Entry>>)

  /** The store `load_cache` leaves: the file's records when the file is fresh and readable, a full reload otherwise. */
  function CachedStore(now: int, cache: Option<CacheFile>, srcs: seq<Option<string>>, rd: Reader): (d: ODict<UserRecord>)
    ensures Valid(d)
  {
    if cache.Some? && IsFresh(now, cache.value.mtime) && cache.value.contents.Some? then
      PutAll(Empty(), cache.value.contents.value)
    else Reload(srcs, rd)
  }

  /** A stale, missing or unreadable cache file means a full reload; a fresh readable one is taken as it is. */
  lemma CachedStoreChoice(now: int, cache: Option<CacheFile>, srcs: seq<Option<string>>, rd: Reader)
    ensures cache.None? ==> CachedStore(now, cache, srcs, rd) == Reload(srcs, rd)
    ensures cache.Some? && !IsFresh(now, cache.value.mtime) ==> CachedStore(now, cache, srcs, rd) == Reload(srcs, rd)
    ensures cache.Some? && cache.value.contents.None? ==> CachedStore(now, cache, srcs, rd) == Reload(srcs, rd)
    ensures cache.Some? && IsFresh(now, cache.value.mtime) && cache.value.contents.Some? ==>
      var es := cache.value.contents.value;
      forall k :: k in CachedStore(now, cache, srcs, rd).vals <==> k in Ids(es)
  {
    if cache.Some? && IsFresh(now, cache.value.mtime) && cache.value.contents.Some? {
      PutAllKeys(cache.value.contents.value);
    }
  }

  /**
   * The freshness boundary: a readable cache file one second short of
   * `CACHE_TTL` old is taken as it is; one exactly `CACHE_TTL` old is stale
   * and the store is reloaded.
   */
  lemma FreshBoundary(mtime: int, contents: Option<seq<Entry>>, srcs: seq<Option<string>>, rd: Reader)
    ensures CachedStore(mtime + CACHE_TTL, Some(CacheFile(mtime, contents)), srcs, rd) == Reload(srcs, rd)
    ensures contents.Some? ==>
      CachedStore(mtime + CACHE_TTL - 1, Some(CacheFile(mtime, contents)), srcs, rd) == PutAll(Empty(), contents.value)
  {
  }

  // ---------------------------------------------------------------------------
  // Live insert

  /** `users_data[id] = rec`, then `del` of the oldest key when the store has grown past `MAX_CACHE_SIZE`. */
  function InsertLive(d: ODict<UserRecord>, id: string, rec: UserRecord): (r: ODict<UserRecord>)
    requires Valid(d)
    ensures Valid(r)
    ensures forall k | k in r.vals && k != id :: k in d.vals && r.vals[k] == d.vals[k]
  {
    var p := Put(d, id, rec);
    if |p.vals| > MAX_CACHE_SIZE then
      ValidSize(p);
      PopOldest(p)
    else p
  }

  /**
   * Inserting a new id appends it; when that takes the store past the bound,
   * exactly the oldest key goes and every other record stays.
   */
  lemma InsertLiveKeys(d: ODict<UserRecord>, id: string, rec: UserRecord)
    requires Valid(d) && id !in d.vals
    ensures var r := InsertLive(d, id, rec);
      r.keys == if |d.keys| + 1 > MAX_CACHE_SIZE then (d.keys + [id])[1..] else d.keys + [id]
    ensures var r := InsertLive(d, id, rec);
      forall k | k in d.vals && k != id :: k in r.vals <==> (|d.keys| + 1 <= MAX_CACHE_SIZE || k != d.keys[0])
    ensures var r := InsertLive(d, id, rec);
      forall k | k in r.vals && k != id :: k in d.vals && r.vals[k] == d.vals[k]
  {
    ValidSize(d);
    var p := Put(d, id, rec);
    ValidSize(p);
    assert p.keys == d.keys + [id];
    if |d.keys| + 1 > MAX_CACHE_SIZE {
      assert p.keys[0] == d.keys[0];
    }
  }

  /** The new id survives its own insert, with its record. */
  lemma InsertLiveKeepsNew(d: ODict<UserRecord>, id: string, rec: UserRecord)
    requires Valid(d) && id !in d.vals
    ensures var r := InsertLive(d, id, rec);
      id in r.vals && r.vals[id] == rec && r.keys[|r.keys| - 1] == id
  {
    var p := Put(d, id, rec);
    assert p.keys == d.keys + [id];
    if |p.vals| > MAX_CACHE_SIZE {
      ValidSize(p);
      var r := PopOldest(p);
      assert r.keys == p.keys[1..];
      assert r.keys[|r.keys| - 1] == id;
    }
  }

  /** A store within `MAX_CACHE_SIZE` stays within it. */
  lemma InsertLiveBound(d: ODict<UserRecord>, id: string, rec: UserRecord)
    requires Valid(d) && |d.vals| <= MAX_CACHE_SIZE
    ensures |InsertLive(d, id, rec).vals| <= MAX_CACHE_SIZE
  {
    var p := Put(d, id, rec);
    ValidSize(d);
    ValidSize(p);
    ValidSize(InsertLive(d, id, rec));
  }

  // ---------------------------------------------------------------------------
  // Results

  /** Where `get_user` found a record: the store (`'cache'`) or a fetched file (`'github_live'`). */
  datatype Origin = Cache | GithubLive

  datatype Lookup =
    | Found(userId: string, rec: UserRecord, origin: Origin)
    | NotFound(userId: string)

  /** One entry of a `search` or `bulk_search` result. */
  datatype Hit = Hit(userId: string, email: string, ip: string)

  datatype SearchResult = SearchResult(query: string, count: nat, results: seq<Hit>)

  datatype BulkResult = BulkResult(results: seq<Hit>, notFound: seq<string>)

  function HitOf(id: string, rec: UserRecord): Hit {
    Hit(id, rec.email, rec.ip)
  }

  /** The `search` test: `q` occurs in the lower-cased id, email or ip. */
  predicate Matches(q: string, id: string, rec: UserRecord) {
    Contains(Lower(id), q) || Contains(Lower(rec.email), q) || Contains(Lower(rec.ip), q)
  }

  /** Every record of the keys `ks` that matches `q`, in key order. */
  function Hits(ks: seq<string>, users: map<string, UserRecord>, q: string): (hs: seq<Hit>)
    requires forall k | k in ks :: k in users
    ensures |hs| <= |ks|
    decreases |ks|
  {
    if ks == [] then []
    else
      var n := |ks|;
      var k := ks[n - 1];
      Hits(ks[..n - 1], users, q) + (if Matches(q, k, users[k]) then [HitOf(k, users[k])] else [])
  }

  /** The first `n` elements of `s`, or all of them. */
  function Take<T>(s: seq<T>, n: nat): (r: seq<T>)
    ensures r <= s && |r| == if |s| <= n then |s| else n
  {
    if |s| <= n then s else s[..n]
  }

  lemma TakePrefix<T>(p: seq<T>, s: seq<T>, n: nat)
    requires p <= s && |p| == n
    ensures Take(s, n) == p
  {
  }

  lemma TakeAll<T>(s: seq<T>, n: nat)
    requires |s| <= n
    ensures Take(s, n) == s
  {
  }

  lemma HitsSnoc(ks: seq<string>, i: nat, users: map<string, UserRecord>, q: string)
    requires i < |ks| && forall k | k in ks :: k in users
    ensures forall k | k in ks[..i + 1] :: k in users
    ensures Hits(ks[..i + 1], users, q) ==
      Hits(ks[..i], users, q) + if Matches(q, ks[i], users[ks[i]]) then [HitOf(ks[i], users[ks[i]])] else []
  {
    assert ks[..i + 1][..i] == ks[..i];
  }

  lemma {:induction false} HitsPrefix(ks: seq<string>, i: nat, users: map<string, UserRecord>, q: string)
    requires i <= |ks| && forall k | k in ks :: k in users
    ensures Hits(ks[..i], users, q) <= Hits(ks, users, q)
    decreases |ks| - i
  {
    if i < |ks| {
      var n := |ks|;
      var pre := ks[..n - 1];
      HitsSnoc(ks, n - 1, users, q);
      HitsPrefix(pre, i, users, q);
      assert pre[..i] == ks[..i] && ks[..n] == ks;
    } else {
      assert ks[..i] == ks;
    }
  }

  /** Each hit is a matching record of the store, exactly as stored, at one of the keys. */
  lemma {:induction false} HitsSound(ks: seq<string>, users: map<string, UserRecord>, q: string)
    requires forall k | k in ks :: k in users
    ensures forall h | h in Hits(ks, users, q) ::
      h.userId in ks && h == HitOf(h.userId, users[h.userId]) && Matches(q, h.userId, users[h.userId])
    decreases |ks|
  {
    if ks != [] {
      HitsSound(ks[..|ks| - 1], users, q);
    }
  }

  /** Every matching record of the keys is a hit. */
  lemma {:induction false} HitsComplete(ks: seq<string>, users: map<string, UserRecord>, q: string)
    requires forall k | k in ks :: k in users
    ensures forall k | k in ks && Matches(q, k, users[k]) :: HitOf(k, users[k]) in Hits(ks, users, q)
    decreases |ks|
  {
    if ks != [] {
      var n := |ks|;
      HitsComplete(ks[..n - 1], users, q);
      forall k | k in ks && Matches(q, k, users[k])
        ensures HitOf(k, users[k]) in Hits(ks, users, q)
      {
        var i :| 0 <= i < n && ks[i] == k;
        if i < n - 1 {
          assert k in ks[..n - 1];
        }
      }
    }
  }

  /**
   * What `search` returns: each result is a matching record of the store, and
   * unless the cap was reached, every matching record is among the results.
   */
  lemma {:induction false} SearchResults(ks: seq<string>, users: map<string, UserRecord>, q: string)
    requires forall k | k in ks :: k in users
    ensures var rs := Take(Hits(ks, users, q), SEARCH_LIMIT);
      |rs| <= SEARCH_LIMIT &&
      forall h | h in rs :: h.userId in ks && h == HitOf(h.userId, users[h.userId]) && Matches(q, h.userId, users[h.userId])
    ensures var rs := Take(Hits(ks, users, q), SEARCH_LIMIT);
      |rs| < SEARCH_LIMIT ==> forall k | k in ks && Matches(q, k, users[k]) :: HitOf(k, users[k]) in rs
  {
    var hs := Hits(ks, users, q);
    HitsSound(ks, users, q);
    HitsComplete(ks, users, q);
    var rs := Take(hs, SEARCH_LIMIT);
    forall h | h in rs
      ensures h in hs
    {
      var i :| 0 <= i < |rs| && rs[i] == h;
      assert hs[i] == h;
    }
  }

  /** The results of `bulk_search` for the ids `ids`: found hits and missing ids, each in input order. */
  function Bulk(ids: seq<string>, users: map<string, UserRecord>): (r: BulkResult)
    ensures |r.results| <= |ids| && |r.notFound| <= |ids|
    ensures forall x | x in r.notFound :: x !in users
    decreases |ids|
  {
    if ids == [] then BulkResult([], [])
    else
      var n := |ids|;
      var pre := Bulk(ids[..n - 1], users);
      var id := Strip(ids[n - 1]);
      if id in users then BulkResult(pre.results + [HitOf(id, users[id])], pre.notFound)
      else BulkResult(pre.results, pre.notFound + [id])
  }

  /** Every input id lands in exactly one of the two lists: `found_count + not_found_count == len(user_ids)`. */
  lemma {:induction false} BulkPartition(ids: seq<string>, users: map<string, UserRecord>)
    ensures |Bulk(ids, users).results| + |Bulk(ids, users).notFound| == |ids|
    decreases |ids|
  {
    if ids != [] {
      BulkPartition(ids[..|ids| - 1], users);
    }
  }

  /** Found hits carry the store's email and ip; not-found ids are stripped input ids absent from the store. */
  lemma {:induction false} BulkSound(ids: seq<string>, users: map<string, UserRecord>)
    ensures forall h | h in Bulk(ids, users).results ::
      h.userId in users && h == HitOf(h.userId, users[h.userId]) && exists i | 0 <= i < |ids| :: Strip(ids[i]) == h.userId
    ensures forall x | x in Bulk(ids, users).notFound ::
      x !in users && exists i | 0 <= i < |ids| :: Strip(ids[i]) == x
    decreases |ids|
  {
    if ids != [] {
      var n := |ids|;
      BulkSound(ids[..n - 1], users);
      forall i | 0 <= i < n - 1
        ensures ids[..n - 1][i] == ids[i]
      {
      }
    }
  }

  /** Every stripped input id absent from the store is reported as not found, and every present one is found. */
  lemma {:induction false} BulkComplete(ids: seq<string>, users: map<string, UserRecord>)
    ensures forall i | 0 <= i < |ids| && Strip(ids[i]) !in users :: Strip(ids[i]) in Bulk(ids, users).notFound
    ensures forall i | 0 <= i < |ids| && Strip(ids[i]) in users ::
      HitOf(Strip(ids[i]), users[Strip(ids[i])]) in Bulk(ids, users).results
    decreases |ids|
  {
    if ids != [] {
      var n := |ids|;
      BulkComplete(ids[..n - 1], users);
      forall i | 0 <= i < n - 1
        ensures ids[..n - 1][i] == ids[i]
      {
      }
    }
  }

  /** Results for a longer list of ids extend those for its prefix, in order. */
  lemma {:induction false} BulkAppend(a: seq<string>, b: seq<string>, users: map<string, UserRecord>)
    ensures Bulk(a + b, users).results == Bulk(a, users).results + Bulk(b, users).results
    ensures Bulk(a + b, users).notFound == Bulk(a, users).notFound + Bulk(b, users).notFound
    decreases |b|
  {
    if b == [] {
      assert a + b == a;
    } else {
      var n := |b|;
      assert (a + b)[..|a + b| - 1] == a + b[..n - 1];
      assert (a + b)[|a + b| - 1] == b[n - 1];
      BulkAppend(a, b[..n - 1], users);
    }
  }

  // ---------------------------------------------------------------------------
  // The service object

  class VahsetApi {
    /** The keys of `users_data`, oldest first. */
    var order: seq<string>
    /** The records of `users_data`. */
    var users: map<string, UserRecord>

    function Store(): ODict<UserRecord>
      reads this
    {
      ODict(order, users)
    }

    ghost predicate Valid()
      reads this
    {
      OrderedDict.Valid(Store())
    }

    /** `VahsetAPI()`: an empty store, then `load_cache`. */
    constructor (now: int, cache: Option<CacheFile>, srcs: seq<Option<string>>, utf8: Utf8Decoder)
      ensures Valid() && Store() == CachedStore(now, cache, srcs, ServiceReader(utf8))
    {
      order, users := [], map[];
      new;
      LoadCache(now, cache, srcs, utf8);
    }

    /** `load_cache`: the cache file's records when it is fresh and readable, otherwise `load_from_github`. */
    method LoadCache(now: int, cache: Option<CacheFile>, srcs: seq<Option<string>>, utf8: Utf8Decoder)
      modifies this
      ensures Valid() && Store() == CachedStore(now, cache, srcs, ServiceReader(utf8))
    {
      if cache.Some? && IsFresh(now, cache.value.mtime) && cache.value.contents.Some? {
        var d := PutAll(Empty(), cache.value.contents.value);
        order, users := d.keys, d.vals;
        return;
      }
      LoadFromSources(srcs, utf8);
    }

    /** `load_from_github`: every record of every available file, assigned in order into a fresh store that then replaces this one. */
    method LoadFromSources(srcs: seq<Option<string>>, utf8: Utf8Decoder)
      modifies this
      ensures Valid() && Store() == Reload(srcs, ServiceReader(utf8))
    {
      ghost var rd := ServiceReader(utf8);
      var all := Empty<UserRecord>();
      for s := 0 to |srcs|
        invariant all == PutAll(Empty(), Entries(srcs[..s], rd))
      {
        EntriesSnoc(srcs, s, rd);
        if srcs[s].Some? {
          var lines := Lines(srcs[s].value);
          SourceLines(srcs[s].value, rd);
          assert rd.split(srcs[s].value) == lines && rd.parse == ParserOf(utf8);
          all := AssignLines(all, lines, utf8, Entries(srcs[..s], rd));
        } else {
          assert Entries(srcs[..s], rd) + [] == Entries(srcs[..s], rd);
        }
      }
      assert srcs[..|srcs|] == srcs;
      order, users := all.keys, all.vals;
    }

    /**
     * `get_user`: the stored record of the stripped id, leaving the store as it
     * is; otherwise the first record for that id in the fetched files, which is
     * inserted live; otherwise not found.
     */
    method GetUser(userId: string, fetched: seq<Option<string>>, utf8: Utf8Decoder) returns (r: Lookup)
      requires Valid()
      modifies this
      ensures Valid()
      ensures var id := Strip(userId);
        id in old(users) ==> r == Found(id, old(users)[id], Cache) && order == old(order) && users == old(users)
      ensures var id := Strip(userId); var live := FirstMatch(Entries(fetched, ServiceReader(utf8)), id);
        id !in old(users) && live.None? ==> r == NotFound(id) && order == old(order) && users == old(users)
      ensures var id := Strip(userId); var live := FirstMatch(Entries(fetched, ServiceReader(utf8)), id);
        id !in old(users) && live.Some? ==> r == Found(id, live.value, GithubLive) && Store() == InsertLive(old(Store()), id, live.value)
    {
      var id := Strip(userId);
      if id in users {
        return Found(id, users[id], Cache);
      }
      ghost var rd := ServiceReader(utf8);
      ghost var parse := rd.parse;
      for s := 0 to |fetched|
        invariant order == old(order) && users == old(users)
        invariant FirstMatch(Entries(fetched[..s], rd), id).None?
      {
        EntriesSnoc(fetched, s, rd);
        var content := fetched[s];
        if content.Some? && content.value != [] {
          var lines := Lines(content.value);
          SourceLines(content.value, rd);
          assert rd.split(content.value) == lines && parse == ParserOf(utf8);
          var hit := FindLine(lines, id, utf8);
          if hit.Some? {
            LiveFound(fetched, s, rd, id, hit.value);
            var d := InsertLive(Store(), id, hit.value);
            order, users := d.keys, d.vals;
            return Found(id, hit.value, GithubLive);
          }
        } else if content.Some? {
          EmptySource(utf8);
        }
        FirstMatchAppend(Entries(fetched[..s], rd), SourceEntries(content, rd), id);
      }
      assert fetched[..|fetched|] == fetched;
      return NotFound(id);
    }

    /** `search`: the first `SEARCH_LIMIT` records, in store order, whose id, email or ip contains the lower-cased, stripped query. */
    method Search(query: string) returns (r: SearchResult)
      requires Valid()
      ensures r.query == Strip(Lower(query))
      ensures r.results == Take(Hits(order, users, r.query), SEARCH_LIMIT) && r.count == |r.results|
    {
      var q := Strip(Lower(query));
      var results := FirstHits(order, users, q);
      return SearchResult(q, |results|, results);
    }

    /** `bulk_search`: each stripped id looked up exactly, split into found hits and missing ids. */
    method BulkSearch(userIds: seq<string>) returns (r: BulkResult)
      requires Valid()
      ensures r == Bulk(userIds, users)
    {
      var results: seq<Hit> := [];
      var notFound: seq<string> := [];
      for i := 0 to |userIds|
        invariant BulkResult(results, notFound) == Bulk(userIds[..i], users)
      {
        assert userIds[..i + 1][..i] == userIds[..i];
        var id := Strip(userIds[i]);
        if id in users {
          results := results + [HitOf(id, users[id])];
        } else {
          notFound := notFound + [id];
        }
      }
      assert userIds[..|userIds|] == userIds;
      return BulkResult(results, notFound);
    }

    /** `get_stats`: `len(users_data)`, the number of keys in the store. */
    function TotalUsers(): (n: nat)
      reads this
      requires Valid()
      ensures n == |order|
    {
      ValidSize(Store());
      |users|
    }
  }

  lemma EntriesThenNoLines(done: seq<Entry>, lines: seq<string>, parse: LineParse)
    ensures done + LineEntries(lines[..0], parse) == done
  {
    assert lines[..0] == [];
  }

  /** One more line of a full reload: its record, if any, is assigned into the store. */
  lemma LoadStep(done: seq<Entry>, prefix: seq<Entry>, line: string, parse: LineParse, data: Option<Parsed>)
    requires parse(line) == data
    ensures data.None? ==> PutAll(Empty(), done + (prefix + LineEntry(line, parse))) == PutAll(Empty(), done + prefix)
    ensures data.Some? ==>
      PutAll(Empty(), done + (prefix + LineEntry(line, parse))) == Put(PutAll(Empty(), done + prefix), data.value.userId, data.value.rec)
  {
    var e := LineEntry(line, parse);
    assert done + (prefix + e) == (done + prefix) + e;
    PutAllAppend(Empty(), done + prefix, e);
    if e != [] {
      assert e[..0] == [];
    }
  }

  /** The loop of `search`: the records of `ks` matching `q`, in order, until `SEARCH_LIMIT` are found. */
  method FirstHits(ks: seq<string>, users: map<string, UserRecord>, q: string) returns (results: seq<Hit>)
    requires forall k | k in ks :: k in users
    ensures results == Take(Hits(ks, users, q), SEARCH_LIMIT)
  {
    results := [];
    for i := 0 to |ks|
      invariant results == Hits(ks[..i], users, q) && |results| < SEARCH_LIMIT
    {
      var id := ks[i];
      HitsSnoc(ks, i, users, q);
      if Matches(q, id, users[id]) {
        results := results + [HitOf(id, users[id])];
        if |results| >= SEARCH_LIMIT {
          LimitReached(ks, i + 1, users, q, results);
          return;
        }
      }
    }
    assert ks[..|ks|] == ks;
    TakeAll(results, SEARCH_LIMIT);
  }

  /** Once the hits of a prefix of the keys reach `SEARCH_LIMIT`, they are the first `SEARCH_LIMIT` hits of all the keys. */
  lemma LimitReached(ks: seq<string>, i: nat, users: map<string, UserRecord>, q: string, results: seq<Hit>)
    requires i <= |ks| && forall k | k in ks :: k in users
    requires results == Hits(ks[..i], users, q) && |results| == SEARCH_LIMIT
    ensures results == Take(Hits(ks, users, q), SEARCH_LIMIT)
  {
    HitsPrefix(ks, i, users, q);
    TakePrefix(results, Hits(ks, users, q), SEARCH_LIMIT);
  }

  /** The inner loop of `load_from_github`: each parsed line of one file assigned into `all_users`. */
  method AssignLines(all: ODict<UserRecord>, lines: seq<string>, utf8: Utf8Decoder, ghost done: seq<Entry>) returns (r: ODict<UserRecord>)
    requires all == PutAll(Empty(), done)
    ensures r == PutAll(Empty(), done + LineEntries(lines, ParserOf(utf8)))
  {
    ghost var parse := ParserOf(utf8);
    r := all;
    EntriesThenNoLines(done, lines, parse);
    for j := 0 to |lines|
      invariant r == PutAll(Empty(), done + LineEntries(lines[..j], parse))
    {
      var data := ParseLine(lines[j], utf8);
      ParserOfApply(utf8, lines[j]);
      LineEntriesSnoc(lines, j, parse);
      LoadStep(done, LineEntries(lines[..j], parse), lines[j], parse, data);
      if data.Some? {
        r := Put(r, data.value.userId, data.value.rec);
      }
    }
    assert lines[..|lines|] == lines;
  }

  /** The inner loop of `get_user`'s live path: the record of the first line that parses to `id`. */
  method FindLine(lines: seq<string>, id: string, utf8: Utf8Decoder) returns (hit: Option<UserRecord>)
    ensures hit == FirstMatch(LineEntries(lines, ParserOf(utf8)), id)
  {
    ghost var parse := ParserOf(utf8);
    for j := 0 to |lines|
      invariant FirstMatch(LineEntries(lines[..j], parse), id).None?
    {
      var data := ParseLine(lines[j], utf8);
      ParserOfApply(utf8, lines[j]);
      LineEntriesSnoc(lines, j, parse);
      FirstMatchAppend(LineEntries(lines[..j], parse), LineEntry(lines[j], parse), id);
      if data.Some? && data.value.userId == id {
        LineEntriesAt(lines, j, parse);
        LineMatch(LineEntries(lines[..j], parse), data.value, LineEntries(lines[j + 1..], parse), id);
        return Some(data.value.rec);
      }
    }
    assert lines[..|lines|] == lines;
    return None;
  }

  /** A matching line after no earlier match is the first record for the id. */
  lemma LineMatch(before: seq<Entry>, p: Parsed, after: seq<Entry>, id: string)
    requires FirstMatch(before, id).None? && p.userId == id
    ensures FirstMatch(before + [(p.userId, p.rec)] + after, id) == Some(p.rec)
  {
    FirstMatchAppend(before, [(p.userId, p.rec)] + after, id);
    assert before + [(p.userId, p.rec)] + after == before + ([(p.userId, p.rec)] + after);
  }

  /** The first file, in order, holding a record for the id gives the live record. */
  lemma LiveFound(srcs: seq<Option<string>>, s: nat, rd: Reader, id: string, rec: UserRecord)
    requires s < |srcs|
    requires FirstMatch(Entries(srcs[..s], rd), id).None?
    requires FirstMatch(SourceEntries(srcs[s], rd), id) == Some(rec)
    ensures FirstMatch(Entries(srcs, rd), id) == Some(rec)
  {
    EntriesAt(srcs, s, rd);
    FirstMatchSplice(Entries(srcs[..s], rd), SourceEntries(srcs[s], rd), Entries(srcs[s + 1..], rd), id);
  }

  lemma FirstMatchSplice(before: seq<Entry>, mid: seq<Entry>, rest: seq<Entry>, id: string)
    requires FirstMatch(before, id).None? && FirstMatch(mid, id).Some?
    ensures FirstMatch(before + mid + rest, id) == FirstMatch(mid, id)
  {
    assert before + mid + rest == before + (mid + rest);
    FirstMatchAppend(before, mid + rest, id);
    FirstMatchAppend(mid, rest, id);
  }
}
