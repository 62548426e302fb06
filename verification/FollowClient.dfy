/**
 A client of FansList: it asks with Cursor 0 first, hands each response's Cursor and Id back and
 stops at IsEnd. Each later response repeats the last fan of the one before, which it drops.
 */
module FollowClient {
  import opened Wrappers
  import opened SortedSets
  import opened RedisStore
  import opened FansPaging
  import opened ColdPaging
  import opened FollowService
  import FollowGraph

  function SizeOf(pageSize: nat): (size: nat)
    ensures size > 0
  {
    if pageSize == 0 then DEFAULT_PAGE_SIZE else pageSize
  }

  function FansIn(items: seq<FansItem>): seq<int> {
    seq(|items|, i requires 0 <= i < |items| => items[i].fansUserId)
  }

  function MembersIn(entries: seq<Entry>): (members: seq<int>)
    ensures |members| == |entries|
  {
    seq(|entries|, i requires 0 <= i < |entries| => entries[i].member)
  }

  lemma MembersInOrder(entries: seq<Entry>)
    ensures forall k :: k in MembersIn(entries) <==> k in MembersOf(entries)
  {
    forall i | 0 <= i < |entries|
      ensures entries[i].member in MembersIn(entries)
    {
      assert MembersIn(entries)[i] == entries[i].member;
    }
  }

  /** The fans of one more response. */
  lemma OneMore(d: seq<Entry>, first: Page, now: int, size: nat, k: nat, items: seq<FansItem>)
    requires FansIn(items) == MembersIn(Following(d, first, now, size, k + 1).fans)
    ensures MembersIn(Gathered(d, first, now, size, k + 1)) ==
      MembersIn(Gathered(d, first, now, size, k)) + if items == [] then [] else FansIn(items)[1..]
  {
    hide Following, Gathered;
    NextGathered(d, first, now, size, k);
    assert |items| == |FansIn(items)|;
  }

  /** A set that is as before is listed as before. */
  lemma ListingStays(redis: Redis, key: Key, d: seq<Entry>)
    requires redis.Valid() && Sorted(d) && ScoresOf(d) == Get(redis.View(), key)
    ensures redis.Listing(key) == d
  {
    hide Ordered, Distinct;
    redis.ListingContents(key);
    ListingIsUnique(redis.Listing(key), d);
  }

  /** What the client keeps between two responses: the list is there, and what it has is what it was shown. */
  ghost predicate Reading(service: Service, userId: int, d: seq<Entry>, first: Page, now: int, size: nat, k: nat,
                          r: FansResponse, fans: seq<int>)
    reads service, service.redis
  {
    && service.Valid() && service.redis.Listing(FansKey(userId)) == d
    && service.Shows(r, userId, Following(d, first, now, size, k))
    && fans == MembersIn(Gathered(d, first, now, size, k))
  }

  /** The list a client reads. */
  ghost predicate Readable(d: seq<Entry>, first: Page, now: int) {
    d != [] && StartsAt(d, now) && CursorOf(d, first.cursor) && forall i :: 0 <= i < |d| ==> d[i].score >= 0
  }

  /** One more request. */
  method ReadMore(service: Service, userId: int, pageSize: nat, now: int, r: FansResponse, fans: seq<int>,
                  ghost d: seq<Entry>, ghost first: Page, ghost k: nat)
    returns (next: FansResponse, more: seq<int>)
    requires userId != 0 && Readable(d, first, now)
    requires Reading(service, userId, d, first, now, SizeOf(pageSize), k, r, fans)
    modifies service.redis
    ensures Reading(service, userId, d, first, now, SizeOf(pageSize), k + 1, next, more)
    ensures service.Model() == old(service.Model())
  {
    hide FollowGraph.Inv, FollowGraph.Apply, FollowGraph.IsNewest, Following, Gathered, CachePage, Range;
    service.redis.ListingContents(FansKey(userId));
    EveryRequestIsCached(d, first, now, SizeOf(pageSize), k);
    NextQuery(d, first, now, SizeOf(pageSize), k);
    var result, rows := service.FansList(userId, r.cursor, r.id, pageSize, now, 0);
    next := result.value;
    ListingStays(service.redis, FansKey(userId), d);
    OneMore(d, first, now, SizeOf(pageSize), k, next.items);
    more := fans + if |next.items| == 0 then [] else FansIn(next.items)[1..];
  }

  lemma StartReading(service: Service, userId: int, d: seq<Entry>, first: Page, now: int, size: nat, r: FansResponse)
    requires service.Valid() && service.Shows(r, userId, first) && service.redis.Listing(FansKey(userId)) == d
    ensures Reading(service, userId, d, first, now, size, 0, r, FansIn(r.items))
  {
    hide FollowGraph.Inv;
  }

  lemma EndsAtLast(service: Service, userId: int, d: seq<Entry>, first: Page, now: int, size: nat, k: nat,
                   r: FansResponse, fans: seq<int>, last: nat)
    requires Reading(service, userId, d, first, now, size, k, r, fans)
    requires EndsAfter(d, first, now, size, last) && k <= last
    ensures service.Valid()
    ensures if r.isEnd then k == last && fans == MembersIn(Gathered(d, first, now, size, k)) else k < last
  {
    hide FollowGraph.Inv, Following, Gathered;
  }

  /** Reads on from a first response until IsEnd, which comes with the last-th one. */
  method ReadOn(service: Service, userId: int, pageSize: nat, now: int, start: FansResponse,
                ghost d: seq<Entry>, ghost first: Page, ghost last: nat)
    returns (fans: seq<int>)
    requires userId != 0 && Readable(d, first, now) && EndsAfter(d, first, now, SizeOf(pageSize), last)
    requires service.Valid() && service.Shows(start, userId, first) && service.redis.Listing(FansKey(userId)) == d
    modifies service.redis
    ensures service.Valid() && service.Model() == old(service.Model())
    ensures fans == MembersIn(Gathered(d, first, now, SizeOf(pageSize), last))
  {
    hide Readable, Reading, EndsAfter, FollowGraph.Inv, Following, Gathered;
    var r := start;
    fans := FansIn(r.items);
    ghost var k := 0;
    StartReading(service, userId, d, first, now, SizeOf(pageSize), start);
    EndsAtLast(service, userId, d, first, now, SizeOf(pageSize), 0, r, fans, last);
    while !r.isEnd
      invariant k <= last && Reading(service, userId, d, first, now, SizeOf(pageSize), k, r, fans)
      invariant service.Valid() && service.Model() == old(service.Model())
      invariant if r.isEnd then k == last && fans == MembersIn(Gathered(d, first, now, SizeOf(pageSize), k)) else k < last
      decreases last - k
    {
      r, fans := ReadMore(service, userId, pageSize, now, r, fans, d, first, k);
      k := k + 1;
      EndsAtLast(service, userId, d, first, now, SizeOf(pageSize), k, r, fans, last);
    }
  }

  /** Everybody who follows v, each once. */
  ghost predicate AreTheFans(fans: seq<int>, s: FollowGraph.State, v: int) {
    && (forall k :: k in fans <==> k in FollowGraph.Fans(s.edges, v))
    && |fans| == FollowGraph.CountOf(s.counts, v).fans
  }

  /**
   Paging through a cached list that has the sentinel and a fan, with no page size of fans sharing
   a follow time and a clock not before any follow: the client stops, with all the fans and with as
   many as the counter says.
   */
  method ReadCachedFans(service: Service, userId: int, pageSize: nat, now: int) returns (fans: seq<int>)
    requires service.Valid() && userId != 0
    requires var d := service.redis.Listing(FansKey(userId));
      && SENTINEL in Get(service.redis.View(), FansKey(userId))
      && |d| >= 2 && Uncrowded(d, SizeOf(pageSize)) && StartsAt(d, now)
    modifies service.redis
    ensures service.Valid() && service.Model() == old(service.Model())
    ensures AreTheFans(fans, service.Model(), userId)
  {
    hide FollowGraph.Inv, FollowGraph.Apply, FollowGraph.IsNewest, FollowGraph.Fans, FollowGraph.Follows;
    hide Following, Gathered, CachePage, Range, Uncrowded, Sorted, ScoresOf, MembersOf;
    var size := SizeOf(pageSize);
    ghost var d := service.redis.Listing(FansKey(userId));
    service.redis.ListingContents(FansKey(userId));
    ghost var first := CachePage(d, now, 0, size);
    ghost var last := PagingShowsTheFans(service.Model(), userId, d, now, size);
    assert forall j: nat :: Nth(d, now, size, j) == Following(d, first, now, size, j);
    CachedListIsReadable(service.Model(), userId, d, now, size);
    var result, rows := service.FansList(userId, 0, 0, pageSize, now, 0);
    ListingStays(service.redis, FansKey(userId), d);
    fans := ReadOn(service, userId, pageSize, now, result.value, d, first, last);
    MembersInOrder(Gathered(d, first, now, size, last));
  }

  lemma CachedListIsReadable(s: FollowGraph.State, v: int, d: seq<Entry>, now: int, size: nat)
    requires FollowGraph.Inv(s) && FansKey(v) in s.sets && SENTINEL in s.sets[FansKey(v)]
    requires Sorted(d) && ScoresOf(d) == s.sets[FansKey(v)] && StartsAt(d, now) && size > 0
    ensures Readable(d, CachePage(d, now, 0, size), now)
    ensures Range(d, now, size) != []
  {
    hide Ordered, CachePage, Range, FollowGraph.ListOk;
    assert FollowGraph.ListOk(s.sets[FansKey(v)], FollowGraph.Neighbours(s.edges, FansKey(v)));
    SentinelListIsComplete(d, FollowGraph.Fans(s.edges, v));
    CachePageCursor(d, now, 0, size);
    CursorIsCached(d, 0, now, size);
  }

  /**
   Paging that starts with no list cached, while no follow time stands against the row order: the
   first response comes from the table, the fill runs to its end, and again the client stops with
   all the fans and with as many as the counter says.
   */
  method ReadUncachedFans(service: Service, userId: int, pageSize: nat, now: int) returns (fans: seq<int>)
    requires service.Valid() && userId != 0 && FansKey(userId) !in service.redis.View()
    requires 0 < |FollowGraph.Fans(service.follow, userId)| < FollowGraph.CACHE_MAX
    requires TimesGrow(service.follow, userId) && pageSize != 1
    requires forall e :: e in FollowGraph.ActiveTo(service.follow, userId) ==> service.follow[e].created <= now
    modifies service.redis
    ensures service.Valid() && service.follow == old(service.follow) && service.counts == old(service.counts)
    ensures AreTheFans(fans, service.Model(), userId)
  {
    hide FollowGraph.Inv, Following, Gathered, EndsAfter, Readable, MembersOf;
    var start, d, first, last := StartUncached(service, userId, pageSize, now);
    fans := ReadOn(service, userId, pageSize, now, start, d, first, last);
    MembersInOrder(Gathered(d, first, now, SizeOf(pageSize), last));
  }

  /** The first request, which fills the list. */
  method StartUncached(service: Service, userId: int, pageSize: nat, now: int)
    returns (start: FansResponse, ghost d: seq<Entry>, ghost first: Page, ghost last: nat)
    requires service.Valid() && userId != 0 && FansKey(userId) !in service.redis.View()
    requires 0 < |FollowGraph.Fans(service.follow, userId)| < FollowGraph.CACHE_MAX
    requires TimesGrow(service.follow, userId) && pageSize != 1
    requires forall e :: e in FollowGraph.ActiveTo(service.follow, userId) ==> service.follow[e].created <= now
    modifies service.redis
    ensures service.Valid() && service.follow == old(service.follow) && service.counts == old(service.counts)
    ensures service.Shows(start, userId, first) && service.redis.Listing(FansKey(userId)) == d
    ensures Readable(d, first, now) && EndsAfter(d, first, now, SizeOf(pageSize), last)
    ensures var all := Gathered(d, first, now, SizeOf(pageSize), last);
      && MembersOf(all) == FollowGraph.Fans(service.follow, userId)
      && |all| == FollowGraph.CountOf(service.counts, userId).fans
  {
    assert service.redis.Listing(FansKey(userId)) == [] && Range([], now, SizeOf(pageSize)) == [];
    hide FollowGraph.Inv, FollowGraph.Apply, FollowGraph.IsNewest, FollowGraph.Fans, FollowGraph.Follows, TimesGrow;
    hide Following, Gathered, TablePage, Range, Sorted, ScoresOf, MembersOf, EndsAfter, FollowGraph.ActiveTo, Readable;
    var size := SizeOf(pageSize);
    ghost var s := service.Model();
    var result, rows := service.FansList(userId, 0, 0, pageSize, now, FollowGraph.CACHE_MAX + 1);
    start := result.value;
    service.redis.ListingContents(FansKey(userId));
    d := service.redis.Listing(FansKey(userId));
    first := TablePage(FollowGraph.FanEntries(s.edges, rows), now, 0, size);
    last := UncachedPaging(s, userId, rows, d, now, size);
  }

  lemma RowsAreFans(s: FollowGraph.State, v: int, rows: seq<(int, int)>)
    requires FollowGraph.Inv(s)
    requires 0 < |FollowGraph.Fans(s.edges, v)| < FollowGraph.CACHE_MAX
    requires FollowGraph.IsNewest(s.edges, FollowGraph.ActiveTo(s.edges, v), FollowGraph.CACHE_MAX, rows)
    ensures 0 < |rows| < FollowGraph.CACHE_MAX
  {
    hide FollowGraph.Inv, FollowGraph.Fans, MembersOf;
    var entries := FollowGraph.FanEntries(s.edges, rows);
    FanEntriesOk(s, v, rows);
    MembersOfSize(entries);
    SubsetSize(MembersOf(entries), FollowGraph.Fans(s.edges, v));
  }

  lemma FilledIsReadable(d: seq<Entry>, entries: seq<Entry>, now: int, size: nat)
    requires Fills(d, entries) && size > 0 && forall i :: 0 <= i < |entries| ==> entries[i].score <= now
    ensures Readable(d, TablePage(entries, now, 0, size), now)
  {
    hide Sorted, TablePage, ScoresOf;
    TableFirst(entries, now, size);
    var p := WhereListed(d, entries, Min(size, |entries|) - 1);
    forall i | 0 <= i < |d|
      ensures 0 <= d[i].score <= now
    {
      TimeIsBefore(d, entries, now, i);
    }
  }

  lemma TimeIsBefore(d: seq<Entry>, entries: seq<Entry>, now: int, i: nat)
    requires Fills(d, entries) && i < |d| && forall i :: 0 <= i < |entries| ==> entries[i].score <= now
    ensures 0 <= d[i].score <= now
  {
    hide Ordered;
    var k := d[i].member;
    assert k in ScoresOf(d);
    if k != SENTINEL {
      var j :| 0 <= j < |entries| && entries[j].member == k;
    } else {
      assert entries[0].score <= now;
    }
  }

  lemma UncachedPaging(s: FollowGraph.State, v: int, rows: seq<(int, int)>, d: seq<Entry>, now: int, size: nat)
    returns (last: nat)
    requires FollowGraph.Inv(s) && FansKey(v) !in s.sets && TimesGrow(s.edges, v) && size >= 2
    requires 0 < |FollowGraph.Fans(s.edges, v)| < FollowGraph.CACHE_MAX
    requires FollowGraph.IsNewest(s.edges, FollowGraph.ActiveTo(s.edges, v), FollowGraph.CACHE_MAX, rows)
    requires forall e :: e in FollowGraph.ActiveTo(s.edges, v) ==> s.edges[e].created <= now
    requires var all := FollowGraph.WithSentinel(FollowGraph.FanEntries(s.edges, rows));
      Sorted(d) && ScoresOf(d) ==
        Get(FollowGraph.Apply(s, FollowGraph.FillFans(v, rows, Min(FollowGraph.CACHE_MAX + 1, |all|))).sets, FansKey(v))
    ensures var first := TablePage(FollowGraph.FanEntries(s.edges, rows), now, 0, size);
      var all := Gathered(d, first, now, size, last);
      && Readable(d, first, now) && EndsAfter(d, first, now, size, last)
      && MembersOf(all) == FollowGraph.Fans(s.edges, v) && |all| == FollowGraph.CountOf(s.counts, v).fans
  {
    hide FollowGraph.Inv, FollowGraph.Apply, FollowGraph.AddAll, Sorted, ScoresOf, MembersOf, TimesGrow;
    var entries := FollowGraph.FanEntries(s.edges, rows);
    RowsAreFans(s, v, rows);
    FilledFans(s, v, rows, d);
    last := ColdPagingShowsTheFans(s, v, rows, d, now, size);
    FilledIsReadable(d, entries, now, size);
  }
}
