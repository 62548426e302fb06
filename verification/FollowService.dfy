/**
 The follow service itself: Follow, UnFollow and FansList over the follow table, the counter table
 and the Redis lists, one request at a time. Each transaction is atomic and Redis calls succeed.
 */
module FollowService {
  import opened Wrappers
  import opened SortedSets
  import opened RedisStore
  import FollowGraph
  import FansPaging

  const DEFAULT_PAGE_SIZE: nat := 20

  datatype FansItem = FansItem(userId: int, fansUserId: int, followCount: int, fansCount: int, createTime: int)

  datatype FansResponse = FansResponse(items: seq<FansItem>, cursor: int, isEnd: bool, id: int)

  /** The chosen rows in two: those listed by descending id and, with lower ids, the rest. */
  ghost predicate IsSplit(follow: FollowGraph.Edges, chosen: set<(int, int)>, rows: seq<(int, int)>, rest: set<(int, int)>) {
    && rest <= chosen <= follow.Keys
    && (forall e :: e in chosen ==> (e in rest <==> e !in rows))
    && (forall i :: 0 <= i < |rows| ==> rows[i] in chosen)
    && (forall i, j :: 0 <= i < j < |rows| ==> follow[rows[i]].id > follow[rows[j]].id)
    && (forall i, e :: 0 <= i < |rows| && e in rest ==> follow[rows[i]].id > follow[e].id)
  }

  lemma SplitOneMore(follow: FollowGraph.Edges, chosen: set<(int, int)>, rows: seq<(int, int)>, rest: set<(int, int)>,
                     e: (int, int))
    requires IsSplit(follow, chosen, rows, rest) && e in rest
    requires forall f :: f in rest && f != e ==> follow[e].id > follow[f].id
    ensures IsSplit(follow, chosen, rows + [e], rest - {e})
  {
    assert forall i :: 0 <= i < |rows| ==> (rows + [e])[i] == rows[i];
  }

  lemma EdgesAreReal(s: FollowGraph.State, u: int, v: int)
    requires FollowGraph.Inv(s)
    ensures (u, v) in s.edges ==> u > 0 && v > 0 && u != v
  {
    hide FollowGraph.Conserved, FollowGraph.ListsOk;
  }

  class Service {
    var follow: FollowGraph.Edges
    var nextId: int
    var counts: FollowGraph.Counts
    const redis: Redis

    ghost function Model(): FollowGraph.State
      requires redis.Valid()
      reads this, redis
    {
      FollowGraph.State(follow, nextId, counts, redis.View())
    }

    ghost predicate Valid()
      reads this, redis
    {
      redis.Valid() && FollowGraph.Inv(Model())
    }

    constructor ()
      ensures Valid() && fresh(redis) && Model() == FollowGraph.EMPTY
    {
      follow, nextId, counts := map[], 1, map[];
      redis := new Redis();
    }

    method IncrFollowCount(u: int)
      modifies this`counts
      ensures counts == FollowGraph.IncrFollows(old(counts), u)
    {
      if u in counts {
        counts := counts[u := counts[u].(follows := counts[u].follows + 1)];
      } else {
        counts := counts[u := FollowGraph.Count(1, 0)];
      }
    }

    method IncrFansCount(u: int)
      modifies this`counts
      ensures counts == FollowGraph.IncrFans(old(counts), u)
    {
      if u in counts {
        counts := counts[u := counts[u].(fans := counts[u].fans + 1)];
      } else {
        counts := counts[u := FollowGraph.Count(0, 1)];
      }
    }

    method DecrFollowCount(u: int)
      modifies this`counts
      ensures counts == FollowGraph.DecrFollows(old(counts), u)
    {
      if u in counts && counts[u].follows > 0 {
        counts := counts[u := counts[u].(follows := counts[u].follows - 1)];
      }
    }

    method DecrFansCount(u: int)
      modifies this`counts
      ensures counts == FollowGraph.DecrFans(old(counts), u)
    {
      if u in counts && counts[u].fans > 0 {
        counts := counts[u := counts[u].(fans := counts[u].fans - 1)];
      }
    }

    /** ZADD and trim, if the list exists. */
    method AddToList(key: Key, score: int, member: int)
      requires redis.Valid()
      modifies redis
      ensures redis.Valid()
      ensures redis.View() == FollowGraph.AddToList(old(redis.View()), key, score, member)
    {
      var listed := redis.Exists(key);
      if listed {
        redis.Zadd(key, score, member);
        redis.ZremRangeByRank(key, -(FollowGraph.CACHE_MAX + 1));
      }
    }

    /**
     Follow. Between two users it succeeds and the edge is active, also when it was ended before; the
     edge that was not active enters the lists there are, each at its reading of the clock.
     */
    method Follow(u: int, v: int, clock: FollowGraph.Clock) returns (r: FollowGraph.Outcome)
      requires Valid()
      requires clock.created > 0 && clock.followedAt > 0 && clock.fannedAt > 0
      modifies this, redis
      ensures Valid()
      ensures (Model(), r) == FollowGraph.Follow(old(Model()), u, v, clock)
      ensures u == 0 ==> r == FollowGraph.Failed(FollowGraph.FollowUserIdEmpty)
      ensures u != 0 && v == 0 ==> r == FollowGraph.Failed(FollowGraph.FollowedUserIdEmpty)
      ensures u != 0 && u == v ==> r == FollowGraph.Failed(FollowGraph.CannotFollowSelf)
      ensures u != 0 && v != 0 && u != v && (u < 0 || v < 0) ==> r == FollowGraph.Failed(FollowGraph.DbError)
      ensures r.Failed? ==> Model() == old(Model())
      ensures u > 0 && v > 0 && u != v ==>
        r == FollowGraph.Ok && FollowGraph.Active(follow) == FollowGraph.Active(old(follow)) + {(u, v)}
      ensures u > 0 && v > 0 && u != v && (u, v) !in FollowGraph.Active(old(follow)) ==>
        && FollowGraph.Listed(old(redis.View()), redis.View(), FollowKey(u), v, clock.followedAt)
        && FollowGraph.Listed(old(redis.View()), redis.View(), FansKey(v), u, clock.fannedAt)
    {
      ghost var before := Model();
      if u > 0 && v > 0 && u != v {
        FollowGraph.FollowMeans(before, u, v, clock);
      }
      EdgesAreReal(before, u, v);
      hide FollowGraph.Inv, FollowGraph.AddToList, FollowGraph.Listed, FollowGraph.Active;
      FollowGraph.FollowKeepsInv(before, u, v, clock);
      if u == 0 {
        return FollowGraph.Failed(FollowGraph.FollowUserIdEmpty);
      }
      if v == 0 {
        return FollowGraph.Failed(FollowGraph.FollowedUserIdEmpty);
      }
      if u == v {
        return FollowGraph.Failed(FollowGraph.CannotFollowSelf);
      }
      var found := (u, v) in follow;
      if found && follow[(u, v)].active {
        return FollowGraph.Ok;
      }
      if found {
        follow := follow[(u, v) := follow[(u, v)].(active := true)];
      } else if u < 0 || v < 0 {
        return FollowGraph.Failed(FollowGraph.DbError);
      } else {
        follow := follow[(u, v) := FollowGraph.Row(nextId, true, clock.created)];
        nextId := nextId + 1;
      }
      IncrFollowCount(u);
      IncrFansCount(v);
      AddToList(FollowKey(u), clock.followedAt, v);
      AddToList(FansKey(v), clock.fannedAt, u);
      return FollowGraph.Ok;
    }

    /** UnFollow. It ends exactly that edge and takes both users off the other's list. */
    method UnFollow(u: int, v: int) returns (r: FollowGraph.Outcome)
      requires Valid()
      modifies this, redis
      ensures Valid()
      ensures (Model(), r) == FollowGraph.UnFollow(old(Model()), u, v)
      ensures u == 0 ==> r == FollowGraph.Failed(FollowGraph.FollowUserIdEmpty)
      ensures u != 0 && v == 0 ==> r == FollowGraph.Failed(FollowGraph.FollowedUserIdEmpty)
      ensures r.Failed? ==> Model() == old(Model())
      ensures u != 0 && v != 0 ==>
        r == FollowGraph.Ok && FollowGraph.Active(follow) == FollowGraph.Active(old(follow)) - {(u, v)}
      ensures u != 0 && v != 0 && (u, v) in FollowGraph.Active(old(follow)) ==>
        && Get(redis.View(), FollowKey(u)) == Get(old(redis.View()), FollowKey(u)) - {v}
        && Get(redis.View(), FansKey(v)) == Get(old(redis.View()), FansKey(v)) - {u}
    {
      if u != 0 && v != 0 {
        FollowGraph.UnFollowMeans(Model(), u, v);
      }
      hide FollowGraph.Active, FollowGraph.Inv, Removed, FollowGraph.DecrFollows, FollowGraph.DecrFans, Get;
      FollowGraph.UnFollowKeepsInv(Model(), u, v);
      if u == 0 {
        return FollowGraph.Failed(FollowGraph.FollowUserIdEmpty);
      }
      if v == 0 {
        return FollowGraph.Failed(FollowGraph.FollowedUserIdEmpty);
      }
      if (u, v) !in follow || !follow[(u, v)].active {
        return FollowGraph.Ok;
      }
      follow := follow[(u, v) := follow[(u, v)].(active := false)];
      DecrFollowCount(u);
      DecrFansCount(v);
      RemoveFromLists(u, v);
      return FollowGraph.Ok;
    }

    method RemoveFromLists(u: int, v: int)
      requires redis.Valid()
      modifies redis
      ensures redis.Valid()
      ensures redis.View() == Removed(Removed(old(redis.View()), FollowKey(u), v), FansKey(v), u)
    {
      hide Removed;
      redis.Zrem(FollowKey(u), v);
      redis.Zrem(FansKey(v), u);
    }

    /** A list runs out of its time to live. */
    method Expire(key: Key)
      requires Valid()
      modifies redis
      ensures Valid()
      ensures Model() == FollowGraph.Apply(old(Model()), FollowGraph.Expire(key))
      ensures redis.View() == old(redis.View()) - {key}
    {
      hide FollowGraph.Inv;
      FollowGraph.StepKeepsInv(Model(), FollowGraph.Expire(key));
      redis.Expire(key);
    }

    /** The newest rows among the chosen ones: ORDER BY id DESC LIMIT limit. */
    method Newest(chosen: set<(int, int)>, limit: nat) returns (rows: seq<(int, int)>)
      requires chosen <= follow.Keys
      requires forall e, f :: e in chosen && f in chosen && e != f ==> follow[e].id != follow[f].id
      ensures FollowGraph.IsNewest(follow, chosen, limit, rows)
    {
      rows := [];
      var rest := chosen;
      while rest != {} && |rows| < limit
        invariant |rows| <= limit
        invariant IsSplit(follow, chosen, rows, rest)
        decreases rest
      {
        var e := HighestId(rest);
        SplitOneMore(follow, chosen, rows, rest, e);
        rows := rows + [e];
        rest := rest - {e};
      }
    }

    method HighestId(chosen: set<(int, int)>) returns (e: (int, int))
      requires chosen != {} && chosen <= follow.Keys
      requires forall e, f :: e in chosen && f in chosen && e != f ==> follow[e].id != follow[f].id
      ensures e in chosen && forall f :: f in chosen && f != e ==> follow[e].id > follow[f].id
    {
      e :| e in chosen;
      var rest := chosen - {e};
      while rest != {}
        invariant e in chosen && rest <= chosen
        invariant forall f :: f in chosen && f !in rest && f != e ==> follow[e].id > follow[f].id
        decreases rest
      {
        var f :| f in rest;
        rest := rest - {f};
        if follow[f].id > follow[e].id {
          e := f;
        }
      }
    }

    method FindByUserId(u: int, limit: nat) returns (rows: seq<(int, int)>)
      requires Valid()
      ensures FollowGraph.IsNewest(follow, FollowGraph.ActiveFrom(follow, u), limit, rows)
    {
      var chosen := set e | e in follow && follow[e].active && e.0 == u;
      rows := Newest(chosen, limit);
    }

    method FindByFollowedUserId(v: int, limit: nat) returns (rows: seq<(int, int)>)
      requires Valid()
      ensures FollowGraph.IsNewest(follow, FollowGraph.ActiveTo(follow, v), limit, rows)
    {
      var chosen := set e | e in follow && follow[e].active && e.1 == v;
      rows := Newest(chosen, limit);
    }

    /** The ZADD loop of addCacheFans and addCacheFollow. */
    method AddAll(key: Key, entries: seq<Entry>)
      requires redis.Valid()
      modifies redis
      ensures redis.Valid()
      ensures redis.View() == FollowGraph.AddAll(old(redis.View()), key, entries)
    {
      for i := 0 to |entries|
        invariant redis.Valid()
        invariant FollowGraph.AddAll(redis.View(), key, entries[i..]) == FollowGraph.AddAll(old(redis.View()), key, entries)
      {
        assert entries[i..][1..] == entries[i + 1..];
        redis.Zadd(key, entries[i].score, entries[i].member);
      }
    }

    method FollowEntries(rows: seq<(int, int)>) returns (entries: seq<Entry>)
      requires forall i :: 0 <= i < |rows| ==> rows[i] in follow
      ensures entries == FollowGraph.FollowEntries(follow, rows)
    {
      entries := [];
      for i := 0 to |rows|
        invariant entries == FollowGraph.FollowEntries(follow, rows)[..i]
      {
        entries := entries + [Entry(follow[rows[i]].created, rows[i].1)];
      }
    }

    method FanEntries(rows: seq<(int, int)>) returns (entries: seq<Entry>)
      requires forall i :: 0 <= i < |rows| ==> rows[i] in follow
      ensures entries == FollowGraph.FanEntries(follow, rows)
    {
      entries := [];
      for i := 0 to |rows|
        invariant entries == FollowGraph.FanEntries(follow, rows)[..i]
      {
        entries := entries + [Entry(follow[rows[i]].created, rows[i].0)];
      }
    }

    /** Fills a list from the rows found, the sentinel last; it stops after at most done ZADDs. */
    method Fill(key: Key, found: seq<Entry>, done: nat)
      requires redis.Valid()
      modifies redis
      ensures redis.Valid()
      ensures redis.View() ==
        FollowGraph.AddAll(old(redis.View()), key,
                           FollowGraph.WithSentinel(found)[..Min(done, |FollowGraph.WithSentinel(found)|)])
    {
      var entries := found;
      if 0 < |entries| < FollowGraph.CACHE_MAX {
        entries := entries + [Entry(0, SENTINEL)];
      }
      AddAll(key, entries[..Min(done, |entries|)]);
    }

    /** The fill after a FollowList that found nothing cached. */
    method FillFollows(u: int, done: nat) returns (ghost op: FollowGraph.Op)
      requires Valid()
      modifies redis
      ensures Valid()
      ensures op.FillFollows? && op.user == u && FollowGraph.Enabled(old(Model()), op)
      ensures op.done == Min(done, |FollowGraph.WithSentinel(FollowGraph.FollowEntries(follow, op.rows))|)
      ensures Model() == FollowGraph.Apply(old(Model()), op)
      ensures FollowKey(u) !in old(redis.View()) && done > 1000 ==>
        var m := Get(redis.View(), FollowKey(u));
        && (forall e :: e in op.rows ==> e.1 in m && m[e.1] == follow[e].created)
        && (forall k :: k in m ==> (u, k) in op.rows || (k == -1 && m[k] == 0))
        && (-1 in m <==> 0 < |op.rows| < 1000)
    {
      hide FollowGraph.Inv, FollowGraph.AddAll, Get;
      var rows := FindByUserId(u, FollowGraph.CACHE_MAX);
      var entries := FollowEntries(rows);
      ghost var all := FollowGraph.WithSentinel(entries);
      assert done > 1000 ==> all[..Min(done, |all|)] == all;
      if FollowKey(u) !in redis.View() {
        FollowGraph.FollowFillWrites(Model(), u, rows);
      }
      op := FollowGraph.FillFollows(u, rows, Min(done, |FollowGraph.WithSentinel(entries)|));
      FollowGraph.StepKeepsInv(Model(), op);
      Fill(FollowKey(u), entries, done);
    }

    method FillFans(v: int, rows: seq<(int, int)>, entries: seq<Entry>, done: nat)
      requires Valid()
      requires FollowGraph.IsNewest(follow, FollowGraph.ActiveTo(follow, v), FollowGraph.CACHE_MAX, rows)
      requires entries == FollowGraph.FanEntries(follow, rows)
      modifies redis
      ensures Valid()
      ensures Model() ==
        FollowGraph.Apply(old(Model()), FollowGraph.FillFans(v, rows, Min(done, |FollowGraph.WithSentinel(entries)|)))
      ensures FansKey(v) !in old(redis.View()) && done > 1000 ==>
        var m := Get(redis.View(), FansKey(v));
        && (forall e :: e in rows ==> e.0 in m && m[e.0] == follow[e].created)
        && (forall k :: k in m ==> (k, v) in rows || (k == -1 && m[k] == 0))
        && (-1 in m <==> 0 < |rows| < 1000)
    {
      hide FollowGraph.Inv, FollowGraph.AddAll, Get;
      ghost var all := FollowGraph.WithSentinel(entries);
      assert done > 1000 ==> all[..Min(done, |all|)] == all;
      if FansKey(v) !in redis.View() {
        FollowGraph.FansFillWrites(Model(), v, rows);
      }
      var op := FollowGraph.FillFans(v, rows, Min(done, |FollowGraph.WithSentinel(entries)|));
      FollowGraph.StepKeepsInv(Model(), op);
      Fill(FansKey(v), entries, done);
    }

    /** The response a page turns into: each fan with the counters kept for that fan. */
    ghost predicate Shows(r: FansResponse, userId: int, page: FansPaging.Page)
      reads this
    {
      && r.cursor == page.cursor && r.id == page.id && r.isEnd == page.isEnd
      && |r.items| == |page.fans|
      && forall i :: 0 <= i < |r.items| ==>
        var fan := page.fans[i].member;
        r.items[i] == FansItem(userId, fan, |FollowGraph.Follows(follow, fan)|,
                               |FollowGraph.Fans(follow, fan)|, page.fans[i].score)
    }

    method CutAtBoundary(kept: seq<Entry>, cursor: int, id: int) returns (i: nat)
      ensures i == FansPaging.BoundaryIn(kept, cursor, id)
    {
      i := 0;
      while i < |kept| && kept[i] != Entry(cursor, id)
        invariant i <= |kept|
        invariant FansPaging.IndexOrZero(kept, Entry(cursor, id), 0) == FansPaging.IndexOrZero(kept, Entry(cursor, id), i)
      {
        i := i + 1;
      }
      if i == |kept| {
        i := 0;
      }
    }

    method Respond(userId: int, kept: seq<Entry>, cursor: int, id: int, isEnd: bool) returns (r: FansResponse)
      requires Valid() && kept != []
      ensures Shows(r, userId, FansPaging.Finish(kept, cursor, id, isEnd))
      ensures r.cursor == (if kept[|kept| - 1].score < 0 then 0 else kept[|kept| - 1].score)
    {
      var last := kept[|kept| - 1];
      var cut := CutAtBoundary(kept, cursor, id);
      var curPage := kept[cut..];
      var items := [];
      for i := 0 to |curPage|
        invariant |items| == i
        invariant forall j :: 0 <= j < i ==>
          items[j] == FansItem(userId, curPage[j].member, |FollowGraph.Follows(follow, curPage[j].member)|,
                               |FollowGraph.Fans(follow, curPage[j].member)|, curPage[j].score)
      {
        var fan := curPage[i].member;
        var count := FollowGraph.CountOf(counts, fan);
        items := items + [FansItem(userId, fan, count.follows, count.fans, curPage[i].score)];
      }
      r := FansResponse(items, if last.score < 0 then 0 else last.score, isEnd, last.member);
    }

    method CachedPage(userId: int, d: seq<Entry>, max: int, id: int, size: nat) returns (r: FansResponse)
      requires Valid() && Range(d, max, size) != []
      ensures Shows(r, userId, FansPaging.CachePage(d, max, id, size)) && r.cursor >= 0
    {
      hide FollowGraph.Inv, FansPaging.Finish;
      var kept, isEnd := Range(d, max, size), false;
      if kept[|kept| - 1].member == SENTINEL {
        kept := kept[..|kept| - 1];
        isEnd := true;
      }
      if |kept| == 0 {
        r := FansResponse([], 0, false, 0);
      } else {
        r := Respond(userId, kept, max, id, isEnd);
      }
    }

    method FirstPage(userId: int, entries: seq<Entry>, max: int, id: int, size: nat) returns (r: FansResponse)
      requires Valid() && size > 0
      ensures Shows(r, userId, FansPaging.TablePage(entries, max, id, size)) && r.cursor >= 0
    {
      hide FollowGraph.Inv, FansPaging.Finish;
      if |entries| == 0 {
        return FansResponse([], 0, false, 0);
      }
      var first := if |entries| > size then entries[..size] else entries;
      assert first == entries[..Min(size, |entries|)];
      r := Respond(userId, first, max, id, |entries| <= size);
    }

    /**
     FansList. With an answer in the cache nothing changes and the response is that page of the
     list; otherwise it is the first page of the newest rows, and those rows fill the list.
     */
    method FansList(userId: int, cursor: int, id: int, pageSize: nat, now: int, done: nat)
      returns (r: Result<FansResponse, FollowGraph.Error>, ghost rows: seq<(int, int)>)
      requires Valid()
      modifies redis
      ensures Valid()
      ensures userId == 0 ==> r == Failure(FollowGraph.UserIdEmpty) && Model() == old(Model())
      ensures userId != 0 ==> r.Success? && r.value.cursor >= 0
      ensures userId != 0 ==>
        var size := if pageSize == 0 then 20 else pageSize;
        var max := if cursor == 0 then now else cursor;
        var d := old(redis.Listing(FansKey(userId)));
        if Range(d, max, size) != [] then
          Model() == old(Model()) && Shows(r.value, userId, FansPaging.CachePage(d, max, id, size))
        else
          && FollowGraph.IsNewest(follow, FollowGraph.ActiveTo(follow, userId), FollowGraph.CACHE_MAX, rows)
          && var entries := FollowGraph.FanEntries(follow, rows);
             Model() == FollowGraph.Apply(old(Model()),
               FollowGraph.FillFans(userId, rows, Min(done, |FollowGraph.WithSentinel(entries)|))) &&
             Shows(r.value, userId, FansPaging.TablePage(entries, max, id, size))
    {
      hide FollowGraph.Inv, FansPaging.CachePage, FollowGraph.Apply, FansPaging.TablePage, Range, Shows;
      rows := [];
      if userId == 0 {
        return Failure(FollowGraph.UserIdEmpty), [];
      }
      var size := if pageSize == 0 then DEFAULT_PAGE_SIZE else pageSize;
      var max := if cursor == 0 then now else cursor;
      var fetched := redis.ZrevRangeByScore(FansKey(userId), max, size);
      if |fetched| > 0 {
        var response := CachedPage(userId, redis.Listing(FansKey(userId)), max, id, size);
        return Success(response), [];
      }
      var found := FindByFollowedUserId(userId, FollowGraph.CACHE_MAX);
      rows := found;
      var entries := FanEntries(found);
      var response := FirstPage(userId, entries, max, id, size);
      FillFans(userId, found, entries, done);
      r := Success(response);
    }
  }
}
