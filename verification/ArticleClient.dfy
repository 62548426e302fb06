/**
 A client of Articles: it asks with Cursor 0 first, hands each response's Cursor and ArticleId back
 and stops at isEnd. Each later response repeats the last article of the one before, which it drops.
 */
module ArticleClient {
  import opened Wrappers
  import opened SortedSets
  import opened RedisStore
  import opened ArticleSets
  import opened ArticlePage
  import opened ArticlePaging
  import opened ArticleTies
  import opened ArticleOrders
  import opened ArticleService
  import LikeDrain
  import FansPaging

  function SizeOf(pageSize: nat): (size: nat)
    ensures size > 0
  {
    if pageSize == 0 then DEFAULT_PAGE_SIZE else pageSize
  }

  ghost function VisibleOf(articles: LikeDrain.Table, author: int): set<int> {
    set id | id in articles && articles[id].author == author && articles[id].status == Visible
  }

  /** A list with its sentinel that shows the author's visible articles, all of them, by their numbers. */
  ghost predicate ShowsVisible(m: Scores, articles: LikeDrain.Table, author: int, sortType: int) {
    && -1 in m && m[-1] == 0
    && (forall id :: id in m && id != -1 ==> id in VisibleOf(articles, author))
    && (forall id :: id in VisibleOf(articles, author) ==>
          id in m && id > 0 && m[id] == ScoreOf(articles[id], sortType) >= 0)
  }

  /** A complete fill of an absent list from fewer than 200 rows leaves such a list, if the query starts above all rows. */
  lemma FilledShowsVisible(sets: Store, articles: LikeDrain.Table, author: int, sortType: int, cursor: int,
                           ids: seq<int>, done: nat)
    requires IsSortType(sortType) && ArticlesKey(author, sortType) !in sets && done > |ids| && 0 < |ids| < 200
    requires IsListed(articles, author, sortType, cursor, ids) && forall id :: id in articles ==> id > 0
    requires forall id :: id in VisibleOf(articles, author) ==> 0 <= ScoreOf(articles[id], sortType) < cursor
    ensures ShowsVisible(Get(Filled(sets, articles, author, sortType, ids, done), ArticlesKey(author, sortType)),
                         articles, author, sortType)
  {
    hide Filled;
    FillWrites(sets, articles, author, sortType, cursor, ids, done);
  }

  lemma ShownIsComplete(d: seq<Entry>, articles: LikeDrain.Table, author: int, sortType: int)
    requires Sorted(d) && ShowsVisible(ScoresOf(d), articles, author, sortType)
    ensures Complete(d) && MembersOf(d[..|d| - 1]) == VisibleOf(articles, author)
    ensures forall i :: 0 <= i < |d| - 1 ==>
      d[i].member != SENTINEL && d[i].member in articles && d[i].score == ScoreOf(articles[d[i].member], sortType)
  {
    hide Ordered, ScoreOf;
    var n := |d| - 1;
    forall j | 0 <= j < |d|
      ensures d[j].score >= 0 && (d[j].member == SENTINEL || d[j].member > 0)
      ensures d[j].member == SENTINEL ==> d[j] == Entry(0, SENTINEL)
    {
      assert d[j].member in ScoresOf(d);
    }
    var i := FansPaging.SentinelRank(d);
    assert d[i] == Entry(0, SENTINEL);
    SentinelIsLast(d);
    forall j | 0 <= j < n
      ensures d[j].member in VisibleOf(articles, author)
    {
      assert d[j].member in ScoresOf(d) && d[j].member != d[n].member;
    }
    FansPaging.FansAreMembers(d, VisibleOf(articles, author));
  }

  /** A response of the service to a client of such a list. */
  lemma Served(d: seq<Entry>, articles: LikeDrain.Table, sortType: int, cursor: int, articleId: int, size: nat)
    requires Complete(d) && size > 0 && cursor > 0
    requires forall i :: 0 <= i < |d| - 1 ==>
      d[i].member != SENTINEL && d[i].member in articles && d[i].score == ScoreOf(articles[d[i].member], sortType)
    ensures var fetched := Range(d, cursor, size);
      && fetched != []
      && (forall i :: 0 <= i < |fetched| && fetched[i].member != SENTINEL ==> fetched[i].member in articles)
      && forall s :: IsSorting(RowsOf(fetched, articles, sortType), s) ==>
           Answers(d, cursor, articleId, size, ArticlePage.Finish(s, cursor, articleId, EndsList(fetched)))
  {
    hide Ordered, Distinct, From, ArticlePage.Finish, IsSorting, RowsOf, Answers;
    EndMeansEnd(d, cursor, size);
    var g, fetched := From(d, cursor), Range(d, cursor, size);
    forall i | 0 <= i < |fetched| && fetched[i].member != SENTINEL
      ensures fetched[i].member in articles
    {
      assert fetched[i] == d[g + i];
    }
    forall s | IsSorting(RowsOf(fetched, articles, sortType), s)
      ensures Answers(d, cursor, articleId, size, ArticlePage.Finish(s, cursor, articleId, EndsList(fetched)))
    {
      ServedPageIsAnswer(d, articles, sortType, cursor, articleId, size, s);
    }
  }

  /** One request of the client, answered from the list. */
  method Ask(service: Service, userId: int, cursor: int, articleId: int, pageSize: nat, sortType: int, now: int,
             arrive: seq<Item> -> seq<Item>, ghost d: seq<Entry>)
    returns (page: Page)
    requires service.Valid() && IsSortType(sortType) && userId > 0 && StartCursor(cursor, sortType, now) > 0
    requires service.redis.Listing(ArticlesKey(userId, sortType)) == d
    requires Complete(d) && forall i :: 0 <= i < |d| - 1 ==>
      d[i].member != SENTINEL && d[i].member in service.articles &&
      d[i].score == ScoreOf(service.articles[d[i].member], sortType)
    requires forall rows :: multiset(arrive(rows)) == multiset(rows)
    modifies service.redis
    ensures service.Valid() && service.redis.View() == old(service.redis.View())
    ensures service.redis.Listing(ArticlesKey(userId, sortType)) == d
    ensures Answers(d, StartCursor(cursor, sortType, now), articleId, SizeOf(pageSize), page)
  {
    hide Answers, ArticlePage.Finish, IsSorting, RowsOf, Filled, Sorted, ScoresOf, Range, IsListed, ItemsFor;
    Served(d, service.articles, sortType, StartCursor(cursor, sortType, now), articleId, SizeOf(pageSize));
    service.redis.ListingContents(ArticlesKey(userId, sortType));
    var r, s := service.Articles(userId, cursor, articleId, pageSize, sortType, now, arrive, [], 0);
    service.redis.ListingContents(ArticlesKey(userId, sortType));
    ListingIsUnique(service.redis.Listing(ArticlesKey(userId, sortType)), d);
    page := r.value;
  }

  /** The ids of the rows the client has. */
  function IdsOf(rows: seq<Item>): (ids: seq<int>)
    ensures |ids| == |rows|
  {
    seq(|rows|, i requires 0 <= i < |rows| => rows[i].id)
  }

  lemma IdsAreMembers(d: seq<Entry>, rows: seq<Item>)
    requires Sorted(d) && d != [] && multiset(rows) == multiset(Items(d[..|d| - 1]))
    ensures forall id :: id in IdsOf(rows) <==> id in MembersOf(d[..|d| - 1])
    ensures |IdsOf(rows)| == |MembersOf(d[..|d| - 1])|
  {
    hide Ordered;
    var all := Items(d[..|d| - 1]);
    MembersOfSize(d[..|d| - 1]);
    assert |rows| == |multiset(rows)| == |multiset(all)| == |all|;
    forall id | id in IdsOf(rows)
      ensures id in MembersOf(d[..|d| - 1])
    {
      var i :| 0 <= i < |rows| && IdsOf(rows)[i] == id;
      assert rows[i] in multiset(all);
      var j :| 0 <= j < |all| && all[j] == rows[i];
      assert d[..|d| - 1][j].member == id;
    }
    forall id | id in MembersOf(d[..|d| - 1])
      ensures id in IdsOf(rows)
    {
      var j :| 0 <= j < |d| - 1 && d[..|d| - 1][j].member == id;
      assert all[j] in multiset(rows);
      var i :| 0 <= i < |rows| && rows[i] == all[j];
      assert IdsOf(rows)[i] == id;
    }
  }

  /**
   Paging through a cached list that shows the author's visible articles, in any order of arrival,
   with no article at a page boundary sharing its score and no number beyond the start of a request
   with Cursor 0: the client stops with exactly the visible articles, each once.
   */
  method ReadArticles(service: Service, userId: int, pageSize: nat, sortType: int, now: int,
                      arrive: nat -> (seq<Item> -> seq<Item>))
    returns (ids: seq<int>)
    requires service.Valid() && (sortType == 0 || sortType == 1) && userId > 0 && (sortType == 0 ==> now > 0)
    requires forall k, rows :: multiset(arrive(k)(rows)) == multiset(rows)
    requires var d := service.redis.Listing(ArticlesKey(userId, sortType));
      && Sorted(d) && ShowsVisible(ScoresOf(d), service.articles, userId, sortType)
      && (forall i :: 0 <= i < |d| ==> d[i].score <= if sortType == 0 then now else 0x4000_0000)
      && (|d| == 1 || (SizeOf(pageSize) > 1 && Clear(d, SizeOf(pageSize))))
    modifies service.redis
    ensures service.Valid() && service.redis.View() == old(service.redis.View())
    ensures forall id :: id in ids <==> id in VisibleOf(service.articles, userId)
    ensures |ids| == |VisibleOf(service.articles, userId)|
  {
    hide Answers, Sorted, ScoresOf, MembersOf, VisibleOf, ShowsVisible, Items, OnTrack, Clear, ClearFrom;
    ghost var d, size := service.redis.Listing(ArticlesKey(userId, sortType)), SizeOf(pageSize);
    ShownIsComplete(d, service.articles, userId, sortType);
    StartIsAbove(d, sortType, now);
    var page := Ask(service, userId, 0, 0, pageSize, sortType, now, arrive(0), d);
    var seen := page.items;
    ghost var g := 0;
    var k := 1;
    ClientStarts(d, StartCursor(0, sortType, now), size, page);
    while !page.isEnd
      invariant service.Valid() && service.redis.View() == old(service.redis.View())
      invariant service.redis.Listing(ArticlesKey(userId, sortType)) == d
      invariant Reading(d, size, page, seen, g)
      decreases |d| - g
    {
      ReadingGoesOn(d, size, page, seen, g);
      var next := Ask(service, userId, page.cursor, page.articleId, pageSize, sortType, now, arrive(k), d);
      NextReading(d, StartCursor(0, sortType, now), size, page, seen, next, g);
      seen := seen + More(next);
      page, k, g := next, k + 1, g + size - 1;
    }
    AllRead(d, size, page, seen, g);
    IdsAreMembers(d, seen);
    ids := IdsOf(seen);
  }

  /** How far the client is: nothing to read, or on track with clear boundaries ahead. */
  ghost predicate Reading(d: seq<Entry>, size: nat, page: Page, seen: seq<Item>, g: nat) {
    if |d| == 1 then seen == [] && page.isEnd
    else size > 1 && OnTrack(d, size, page, seen, g) && ClearFrom(d, g, size)
  }

  lemma ClientStarts(d: seq<Entry>, start: int, size: nat, page: Page)
    requires Complete(d) && StartsAbove(d, start) && size > 0 && Answers(d, start, 0, size, page)
    requires |d| == 1 || (size > 1 && Clear(d, size))
    ensures Reading(d, size, page, page.items, 0)
  {
    hide Answers, OnTrack, Clear, ClearFrom, Sorted;
    if |d| == 1 {
      NothingToShow(d, start, size, page);
    } else {
      StartsOnTrack(d, start, size, page);
      ClearIff(d, size);
    }
  }

  lemma ReadingGoesOn(d: seq<Entry>, size: nat, page: Page, seen: seq<Item>, g: nat)
    requires Complete(d) && Reading(d, size, page, seen, g) && !page.isEnd
    ensures size > 1 && g + size < |d| && page.cursor > 0
  {
    hide Sorted, Items;
    AloneIsPositive(d, g + size - 1);
  }

  lemma NextReading(d: seq<Entry>, start: int, size: nat, page: Page, seen: seq<Item>, next: Page, g: nat)
    requires Complete(d) && Reading(d, size, page, seen, g) && !page.isEnd && page.cursor > 0
    requires Answers(d, page.cursor, page.articleId, size, next)
    ensures size > 1 && g + size < |d| && Reading(d, size, next, seen + More(next), g + size - 1)
  {
    hide Complete, Answers, Items, Alone;
    assert Follows(d, start, size, page, next);
    StaysOnTrack(d, start, size, page, seen, next, g);
  }

  lemma AllRead(d: seq<Entry>, size: nat, page: Page, seen: seq<Item>, g: nat)
    requires d != [] && Reading(d, size, page, seen, g) && page.isEnd
    ensures multiset(seen) == multiset(Items(d[..|d| - 1]))
  {
  }
}
