/**
 The article service and its two consumers: Publish, ArticleDelete and Articles of the RPC side,
 the repair of the cached lists with the search documents and the like numbers of the message side.
 Redis calls succeed; what the database answers to the list query, which authors the user service
 knows and in which order a bulk of documents is sent are parameters.
 */
module ArticleService {
  import opened Wrappers
  import opened Decimal
  import opened SortedSets
  import opened RedisStore
  import opened ArticleSets
  import opened LikeDrain
  import opened ArticlePage
  import opened SearchIndex
  import ArticlePaging
  import L = LikeRecords

  const DEFAULT_PAGE_SIZE: nat := 20
  const DEFAULT_LIMIT: nat := 200
  const DEFAULT_LIKE_CURSOR: int := 0x4000_0000

  datatype Error =
    | SortTypeInvalid | UserIdInvalid | TitleEmpty | ContentEmpty | ArticleIdInvalid | NotFound | AccessDenied

  /** A row of like_count as text, the way the change feed carries it. */
  datatype LikeRow = LikeRow(biz: string, objId: string, likeNum: string)

  /** What one text row means; rows of other businesses and unreadable rows are skipped. */
  function ApplyLikeRow(articles: Table, row: LikeRow): Table {
    var id, likeNum := ParseInt(row.objId), ParseInt(row.likeNum);
    if row.biz == ARTICLE_BIZ && id.ok && likeNum.ok
    then UpdateLikeNum(articles, L.Obj(row.biz, id.value), likeNum.value)
    else articles
  }

  function ApplyLikeRows(articles: Table, rows: seq<LikeRow>): Table {
    if rows == [] then articles
    else ApplyLikeRow(ApplyLikeRows(articles, rows[..|rows| - 1]), rows[|rows| - 1])
  }

  /** The text of a changed count row is read back as the row. */
  lemma LikeRowIsRead(articles: Table, o: L.Obj, likeNum: int)
    requires IsInt64(o.id) && IsInt64(likeNum)
    ensures ApplyLikeRow(articles, LikeRow(o.biz, FormatInt(o.id), FormatInt(likeNum))) == UpdateLikeNum(articles, o, likeNum)
  {
    ParseFormat(o.id);
    ParseFormat(likeNum);
  }

  /** A row changes at most the like number of one article, and only as a readable row of the article business. */
  lemma OnlyReadableRowsCount(articles: Table, row: LikeRow)
    ensures var after, id, likeNum := ApplyLikeRow(articles, row), ParseInt(row.objId), ParseInt(row.likeNum);
      if row.biz == "article" && id.ok && likeNum.ok && id.value in articles
      then after == articles[id.value := articles[id.value].(likeNum := likeNum.value)]
      else after == articles
  {
    hide ParseInt;
  }

  /** Changed count rows as text. */
  function TextOf(changes: seq<(L.Obj, int)>): (rows: seq<LikeRow>)
    ensures |rows| == |changes|
  {
    seq(|changes|, i requires 0 <= i < |changes| =>
      LikeRow(changes[i].0.biz, FormatInt(changes[i].0.id), FormatInt(changes[i].1)))
  }

  lemma {:induction false} LikeRowsAreRead(articles: Table, changes: seq<(L.Obj, int)>)
    requires forall i :: 0 <= i < |changes| ==> IsInt64(changes[i].0.id) && IsInt64(changes[i].1)
    ensures ApplyLikeRows(articles, TextOf(changes)) == UpdateAll(articles, changes)
  {
    hide ApplyLikeRow, FormatInt;
    if changes != [] {
      var front, last := changes[..|changes| - 1], changes[|changes| - 1];
      LikeRowsAreRead(articles, front);
      assert TextOf(changes)[..|changes| - 1] == TextOf(front);
      LikeRowIsRead(UpdateAll(articles, front), last.0, last.1);
    }
  }

  /** A message of n count rows does what n steps of the drain do. */
  lemma LikeMessageIsSteps(w: World, n: nat)
    requires n <= |w.countChanges|
    requires forall i :: 0 <= i < n ==> IsInt64(w.countChanges[i].0.id) && IsInt64(w.countChanges[i].1)
    ensures ApplyLikeRows(w.articles, TextOf(w.countChanges[..n])) == ConsumeCounts(w, n).articles
  {
    LikeRowsAreRead(w.articles, w.countChanges[..n]);
    CountStepsUpdateAll(w, n);
  }

  /**
   A row of the article table the way the change feed carries it. Ids are MySQL bigints, whose text
   is their decimal text; publishTime is what the time text parses to.
   */
  datatype ArticleRow = ArticleRow(id: int, author: int, title: string, content: string, description: string,
                                   status: string, likeNum: string, publishTime: int)

  function StatusOf(code: int): Status {
    if code == 2 then Visible else if code == 3 then UserDeleted else if code == 1 then NotPass else Pending
  }

  function CodeOf(status: Status): int {
    match status
    case Pending => 0
    case NotPass => 1
    case Visible => 2
    case UserDeleted => 3
  }

  /** What a text row means for the lists; an unreadable number counts as what the parser returns with the error. */
  function ChangeOf(row: ArticleRow): Change {
    (row.id, Article(row.author, StatusOf(ParseInt(row.status).value), ParseInt(row.likeNum).value, row.publishTime))
  }

  /** What it means for the search index, with the author's name added. */
  function UpsertOf(row: ArticleRow, name: string): Upsert {
    (row.id, Doc(row.author, name, row.title, row.content, row.description,
                 ParseInt(row.status).value, ParseInt(row.likeNum).value))
  }

  /** The text of a changed article row is read back as the row, for the lists and for the index. */
  lemma ArticleRowIsRead(id: int, a: Article, title: string, content: string, description: string, name: string)
    requires IsInt64(a.likeNum)
    ensures var status := match a.status
        case Pending => "0"
        case NotPass => "1"
        case Visible => "2"
        case UserDeleted => "3";
      var row := ArticleRow(id, a.author, title, content, description, status, FormatInt(a.likeNum), a.publishTime);
      && ChangeOf(row) == (id, a)
      && UpsertOf(row, name) == (id, Doc(a.author, name, title, content, description, CodeOf(a.status), a.likeNum))
  {
    hide ParseInt;
    ParseFormat(CodeOf(a.status));
    hide FormatInt;
    ParseFormat(a.likeNum);
  }

  /** How many rows come before the first one whose author the user service does not know. */
  function Known(rows: seq<ArticleRow>, users: map<int, string>): (n: nat)
    ensures n <= |rows|
    ensures forall i :: 0 <= i < n ==> rows[i].author in users
    ensures n < |rows| ==> rows[n].author !in users
  {
    if rows == [] || rows[0].author !in users then 0 else 1 + Known(rows[1..], users)
  }

  function ChangesIn(rows: seq<ArticleRow>): (changes: seq<Change>)
    ensures |changes| == |rows|
  {
    seq(|rows|, i requires 0 <= i < |rows| => ChangeOf(rows[i]))
  }

  function UpsertsIn(rows: seq<ArticleRow>, users: map<int, string>): (docs: seq<Upsert>)
    requires forall i :: 0 <= i < |rows| ==> rows[i].author in users
    ensures |docs| == |rows|
  {
    seq(|rows|, i requires 0 <= i < |rows| => UpsertOf(rows[i], users[rows[i].author]))
  }

  /** The rows of the fetched ids, leaving the sentinel out. */
  function RowsOf(fetched: seq<Entry>, articles: Table, sortType: int): seq<Item>
    requires forall i :: 0 <= i < |fetched| && fetched[i].member != SENTINEL ==> fetched[i].member in articles
  {
    if fetched == [] then []
    else
      var last := fetched[|fetched| - 1];
      RowsOf(fetched[..|fetched| - 1], articles, sortType) +
      if last.member == SENTINEL then [] else [Item(last.member, ScoreOf(articles[last.member], sortType))]
  }

  /** The rows the list query selects: the author's visible articles strictly below the cursor. */
  predicate Selected(articles: Table, author: int, sortType: int, cursor: int, id: int) {
    && id in articles && articles[id].author == author && articles[id].status == Visible
    && ScoreOf(articles[id], sortType) < cursor
  }

  /** The answer of the list query: the 200 highest selected rows, or all, in descending order. */
  ghost predicate IsListed(articles: Table, author: int, sortType: int, cursor: int, ids: seq<int>) {
    && |ids| <= DEFAULT_LIMIT
    && (forall i :: 0 <= i < |ids| ==> Selected(articles, author, sortType, cursor, ids[i]))
    && (forall id :: Selected(articles, author, sortType, cursor, id) && id !in ids ==>
          |ids| == DEFAULT_LIMIT &&
          forall i :: 0 <= i < |ids| ==> ScoreOf(articles[ids[i]], sortType) >= ScoreOf(articles[id], sortType))
    && (forall i, j :: 0 <= i < j < |ids| ==>
          ids[i] != ids[j] && ScoreOf(articles[ids[i]], sortType) >= ScoreOf(articles[ids[j]], sortType))
  }

  function ItemsFor(ids: seq<int>, articles: Table, sortType: int): (r: seq<Item>)
    requires forall i :: 0 <= i < |ids| ==> ids[i] in articles
    ensures |r| == |ids|
  {
    seq(|ids|, i requires 0 <= i < |ids| => Item(ids[i], ScoreOf(articles[ids[i]], sortType)))
  }

  /** The lists after a fill that stops after at most done ZADDs. */
  ghost function Filled(sets: Store, articles: Table, author: int, sortType: int, ids: seq<int>, done: nat): Store
    requires forall i :: 0 <= i < |ids| ==> ids[i] in articles
  {
    var some := FillIds(sets, articles, author, sortType, ids[..Min(done, |ids|)]);
    if done > |ids| && 0 < |ids| < DEFAULT_LIMIT
    then Added(some, ArticlesKey(author, sortType), 0, SENTINEL)
    else some
  }

  /** A list that exists takes the member at that score; one that does not stays away. */
  ghost predicate InListThereIs(before: Store, after: Store, key: Key, member: int, score: int) {
    (key in after <==> key in before) && (key in before ==> after[key] == before[key][member := score])
  }

  lemma AddToBothMeans(sets: Store, author: int, publishTime: int, likeNum: int, id: int)
    ensures InListThereIs(sets, AddToBoth(sets, author, publishTime, likeNum, id), ArticlesKey(author, 0), id, publishTime)
    ensures InListThereIs(sets, AddToBoth(sets, author, publishTime, likeNum, id), ArticlesKey(author, 1), id, likeNum)
  {
    var m0, m1 := Get(sets, ArticlesKey(author, 0)), Get(sets, ArticlesKey(author, 1));
    assert id in m0[id := publishTime] && id in m1[id := likeNum];
  }

  /** A request does to the table and the lists what a step of the drain does. */
  ghost predicate TakesStep(w: World, step: Step, articles: Table, sets: Store) {
    Enabled(w, step) && Next(w, step).articles == articles && Next(w, step).sets == sets
  }

  /** And a fill from visible articles of the author is a fill step, wherever it stops. */
  lemma FillTakesStep(w: World, author: int, sortType: int, ids: seq<int>, done: nat)
    requires forall i :: 0 <= i < |ids| ==>
      ids[i] in w.articles && w.articles[ids[i]].author == author && w.articles[ids[i]].status == Visible
    ensures TakesStep(w, Fill(author, sortType, ids[..Min(done, |ids|)], done > |ids| && 0 < |ids| < 200),
                      w.articles, Filled(w.sets, w.articles, author, sortType, ids, done))
  {
    hide FillIds, Added;
  }

  class Service {
    var articles: Table
    var nextId: int
    var index: Index
    const redis: Redis

    ghost predicate Valid()
      reads this, redis
    {
      redis.Valid() && nextId > 0 && forall id :: id in articles ==> 0 < id < nextId
    }

    constructor ()
      ensures Valid() && fresh(redis) && articles == map[] && index == map[] && redis.View() == map[]
    {
      articles, nextId, index := map[], 1, map[];
      redis := new Redis();
    }

    method AddIfExists(key: Key, score: int, member: int)
      requires redis.Valid()
      modifies redis
      ensures redis.Valid() && redis.View() == ArticleSets.AddIfExists(old(redis.View()), key, score, member)
    {
      var found := redis.Exists(key);
      if found {
        redis.Zadd(key, score, member);
      }
    }

    /** Publish: a new visible article, added to those lists that exist. */
    method Publish(userId: int, title: string, content: string, published: int, listedAt: int)
      returns (r: Result<int, Error>)
      requires Valid()
      modifies this`articles, this`nextId, redis
      ensures Valid()
      ensures r.Success? <==> userId > 0 && title != [] && content != []
      ensures r.Failure? ==> articles == old(articles) && redis.View() == old(redis.View())
      ensures r.Failure? ==>
        r.error == if userId <= 0 then UserIdInvalid else if title == [] then TitleEmpty else ContentEmpty
      ensures r.Success? ==>
        && r.value !in old(articles)
        && articles == old(articles)[r.value := Article(userId, Visible, 0, published)]
        && redis.View() == AddToBoth(old(redis.View()), userId, listedAt, 0, r.value)
        && InListThereIs(old(redis.View()), redis.View(), ArticlesKey(userId, 0), r.value, listedAt)
        && InListThereIs(old(redis.View()), redis.View(), ArticlesKey(userId, 1), r.value, 0)
        && forall w: World :: w.articles == old(articles) && w.sets == old(redis.View()) ==>
             TakesStep(w, LikeDrain.Publish(r.value, userId, published, listedAt), articles, redis.View())
    {
      AddToBothMeans(redis.View(), userId, listedAt, 0, nextId);
      hide InListThereIs;
      if userId <= 0 {
        return Failure(UserIdInvalid);
      }
      if |title| == 0 {
        return Failure(TitleEmpty);
      }
      if |content| == 0 {
        return Failure(ContentEmpty);
      }
      var id := nextId;
      articles := articles[id := Article(userId, Visible, 0, published)];
      nextId := nextId + 1;
      AddIfExists(ArticlesKey(userId, SORT_PUBLISH_TIME), listedAt, id);
      AddIfExists(ArticlesKey(userId, SORT_LIKE_COUNT), 0, id);
      r := Success(id);
    }

    /** ArticleDelete: the author's article becomes deleted and leaves both lists. */
    method ArticleDelete(userId: int, articleId: int) returns (r: Result<(), Error>)
      requires Valid()
      modifies this`articles, redis
      ensures Valid()
      ensures r.Success? <==>
        userId > 0 && articleId in old(articles) && old(articles)[articleId].author == userId
      ensures r.Failure? ==> articles == old(articles) && redis.View() == old(redis.View())
      ensures r.Failure? ==>
        r.error == if userId <= 0 then UserIdInvalid else if articleId <= 0 then ArticleIdInvalid
                   else if articleId !in old(articles) then NotFound else AccessDenied
      ensures r.Success? ==>
        && articles == old(articles)[articleId := old(articles)[articleId].(status := UserDeleted)]
        && redis.View() == RemoveFromBoth(old(redis.View()), userId, articleId)
        && Get(redis.View(), ArticlesKey(userId, 0)) == Get(old(redis.View()), ArticlesKey(userId, 0)) - {articleId}
        && Get(redis.View(), ArticlesKey(userId, 1)) == Get(old(redis.View()), ArticlesKey(userId, 1)) - {articleId}
        && forall w: World :: w.articles == old(articles) && w.sets == old(redis.View()) ==>
             TakesStep(w, LikeDrain.Delete(articleId), articles, redis.View())
    {
      if userId <= 0 {
        return Failure(UserIdInvalid);
      }
      if articleId <= 0 {
        return Failure(ArticleIdInvalid);
      }
      if articleId !in articles {
        return Failure(NotFound);
      }
      if articles[articleId].author != userId {
        return Failure(AccessDenied);
      }
      articles := articles[articleId := articles[articleId].(status := UserDeleted)];
      redis.Zrem(ArticlesKey(userId, SORT_PUBLISH_TIME), articleId);
      redis.Zrem(ArticlesKey(userId, SORT_LIKE_COUNT), articleId);
      r := Success(());
    }

    /**
     articleOperate on one message of row changes. The lists follow the rows up to the first one
     whose author is not found; only a message without such a row reaches the search index, in the
     order `sent` that the bulk happens to take.
     */
    method ArticleOperate(rows: seq<ArticleRow>, users: map<int, string>, sent: seq<Upsert>) returns (failed: bool)
      requires redis.Valid()
      requires multiset(sent) == multiset(UpsertsIn(rows[..Known(rows, users)], users))
      modifies this`index, redis
      ensures redis.Valid()
      ensures failed <==> exists row :: row in rows && row.author !in users
      ensures var n := Known(rows, users);
        redis.View() == ApplyChanges(old(redis.View()), ChangesIn(rows[..if failed then n + 1 else n]))
      ensures index == if failed then old(index) else Upserted(old(index), sent)
    {
      hide ChangeOf, ApplyChange, UpsertOf, Upserted;
      for i := 0 to |rows|
        invariant index == old(index) && redis.Valid() && i <= Known(rows, users)
        invariant redis.View() == ApplyChanges(old(redis.View()), ChangesIn(rows[..i]))
      {
        RepairOne(ChangeOf(rows[i]));
        assert ChangesIn(rows[..i + 1])[..i] == ChangesIn(rows[..i]);
        if rows[i].author !in users {
          return true;
        }
      }
      SendBulk(sent);
      failed := false;
    }

    /** The upserts of BatchUpSertToEs, as the bulk sends them. */
    method SendBulk(sent: seq<Upsert>)
      modifies this`index
      ensures index == Upserted(old(index), sent)
    {
      for i := 0 to |sent|
        invariant Upserted(index, sent[i..]) == Upserted(old(index), sent)
      {
        assert sent[i..][1..] == sent[i + 1..];
        index := index[sent[i].0 := sent[i].1];
      }
    }

    method RepairOne(change: Change)
      requires redis.Valid()
      modifies redis
      ensures redis.Valid()
      ensures redis.View() == ApplyChange(old(redis.View()), change)
    {
      hide Added, Removed;
      var (id, a) := change;
      if a.status == Visible {
        AddIfExists(ArticlesKey(a.author, SORT_PUBLISH_TIME), a.publishTime, id);
        AddIfExists(ArticlesKey(a.author, SORT_LIKE_COUNT), a.likeNum, id);
      } else if a.status == UserDeleted {
        redis.Zrem(ArticlesKey(a.author, SORT_PUBLISH_TIME), id);
        redis.Zrem(ArticlesKey(a.author, SORT_LIKE_COUNT), id);
      }
    }

    /** updateArticleLikeNum on one message of count rows. */
    method UpdateArticleLikeNum(rows: seq<LikeRow>)
      requires Valid()
      modifies this`articles
      ensures Valid()
      ensures articles == ApplyLikeRows(old(articles), rows)
    {
      for i := 0 to |rows|
        invariant Valid()
        invariant articles == ApplyLikeRows(old(articles), rows[..i])
      {
        assert rows[..i + 1][..i] == rows[..i];
        if rows[i].biz != ARTICLE_BIZ {
          continue;
        }
        var id := ParseInt(rows[i].objId);
        if !id.ok {
          continue;
        }
        var likeNum := ParseInt(rows[i].likeNum);
        if !likeNum.ok {
          continue;
        }
        if id.value in articles {
          articles := articles[id.value := articles[id.value].(likeNum := likeNum.value)];
        }
      }
      assert rows[..|rows|] == rows;
    }

    /** addCacheArticles, stopping after at most done ZADDs. */
    method AddCacheArticles(author: int, sortType: int, ids: seq<int>, done: nat)
      requires Valid() && forall i :: 0 <= i < |ids| ==> ids[i] in articles
      modifies redis
      ensures Valid()
      ensures redis.View() == Filled(old(redis.View()), articles, author, sortType, ids, done)
    {
      hide Added;
      var some := ids[..Min(done, |ids|)];
      for i := 0 to |some|
        invariant redis.Valid()
        invariant FillIds(redis.View(), articles, author, sortType, some[i..]) ==
          FillIds(old(redis.View()), articles, author, sortType, some)
      {
        assert some[i..][1..] == some[i + 1..];
        var score := ScoreOf(articles[some[i]], sortType);
        redis.Zadd(ArticlesKey(author, sortType), if score < 0 then 0 else score, some[i]);
      }
      if done > |ids| && 0 < |ids| < DEFAULT_LIMIT {
        redis.Zadd(ArticlesKey(author, sortType), 0, SENTINEL);
      }
    }

    /** articleByIds before the rows arrive: each id but the sentinel must have a row. */
    method FetchRows(fetched: seq<Entry>, sortType: int) returns (r: Result<seq<Item>, Error>)
      ensures r.Success? <==> forall i :: 0 <= i < |fetched| && fetched[i].member != SENTINEL ==> fetched[i].member in articles
      ensures r.Success? ==> r.value == RowsOf(fetched, articles, sortType)
      ensures r.Failure? ==> r.error == NotFound
    {
      var rows := [];
      for i := 0 to |fetched|
        invariant forall j :: 0 <= j < i && fetched[j].member != SENTINEL ==> fetched[j].member in articles
        invariant rows == RowsOf(fetched[..i], articles, sortType)
      {
        assert fetched[..i + 1][..i] == fetched[..i];
        var id := fetched[i].member;
        if id != SENTINEL {
          if id !in articles {
            return Failure(NotFound);
          }
          rows := rows + [Item(id, ScoreOf(articles[id], sortType))];
        }
      }
      assert fetched[..|fetched|] == fetched;
      r := Success(rows);
    }

    /** The last row gives the next cursor; the page starts at the item the client already has. */
    method MakePage(s: seq<Item>, cursor: int, articleId: int, isEnd: bool) returns (page: Page)
      ensures page == ArticlePage.Finish(s, cursor, articleId, isEnd) && page.cursor >= 0
    {
      if |s| == 0 {
        return Page([], 0, 0, isEnd);
      }
      var last := s[|s| - 1];
      var k := 0;
      while k < |s| && s[k] != Item(articleId, cursor)
        invariant k <= |s|
        invariant BoundaryIn(s, Item(articleId, cursor), 0) == BoundaryIn(s, Item(articleId, cursor), k)
      {
        k := k + 1;
      }
      page := Page(if k < |s| then s[k..] else s, if last.key < 0 then 0 else last.key, last.id, isEnd);
    }

    /** The response from the cache: a sorting of the fetched rows in whatever order they arrived. */
    method CachedArticles(fetched: seq<Entry>, cursor: int, articleId: int, sortType: int,
                          arrive: seq<Item> -> seq<Item>)
      returns (r: Result<Page, Error>, ghost s: seq<Item>)
      requires forall rows :: multiset(arrive(rows)) == multiset(rows)
      requires fetched != []
      ensures r.Success? <==> forall i :: 0 <= i < |fetched| && fetched[i].member != SENTINEL ==> fetched[i].member in articles
      ensures r.Success? ==> IsSorting(RowsOf(fetched, articles, sortType), s)
      ensures r.Success? ==> r.value == ArticlePage.Finish(s, cursor, articleId, EndsList(fetched))
      ensures r.Failure? ==> r.error == NotFound
      ensures r.Success? ==> r.value.cursor >= 0
    {
      hide ArticlePage.Finish, Descending;
      s := [];
      var rows := FetchRows(fetched, sortType);
      if rows.Failure? {
        return Failure(NotFound), [];
      }
      var sorted := SortRows(arrive(rows.value));
      s := sorted;
      var page := MakePage(sorted, cursor, articleId, EndsList(fetched));
      r := Success(page);
    }

    /**
     Articles. A request with Cursor 0 starts now (sort type 0) or at 2^30 likes (sort type 1). With an
     answer in the cache nothing changes; otherwise the first rows of the query are the page and the
     rows fill the list.
     */
    method Articles(userId: int, cursor: int, articleId: int, pageSize: nat, sortType: int, now: int,
                    arrive: seq<Item> -> seq<Item>, listed: seq<int>, done: nat)
      returns (r: Result<Page, Error>, ghost s: seq<Item>)
      requires Valid() && forall rows :: multiset(arrive(rows)) == multiset(rows)
      requires
        var size := if pageSize == 0 then DEFAULT_PAGE_SIZE else pageSize;
        var max := StartCursor(cursor, sortType, now);
        IsSortType(sortType) && Range(redis.Listing(ArticlesKey(userId, sortType)), max, size) == [] ==>
          IsListed(articles, userId, sortType, max, listed)
      modifies redis
      ensures Valid()
      ensures sortType != 0 && sortType != 1 ==> r == Failure(SortTypeInvalid)
      ensures (sortType == 0 || sortType == 1) && userId <= 0 ==> r == Failure(UserIdInvalid)
      ensures r.Success? ==> r.value.cursor >= 0
      ensures (sortType != 0 && sortType != 1) || userId <= 0 ==> redis.View() == old(redis.View())
      ensures (sortType == 0 || sortType == 1) && userId > 0 ==>
        var size := if pageSize == 0 then 20 else pageSize;
        var max := if cursor != 0 then cursor else if sortType == 0 then now else 0x4000_0000;
        var fetched := Range(old(redis.Listing(ArticlesKey(userId, sortType))), max, size);
        if fetched != [] then
          && redis.View() == old(redis.View())
          && (r.Success? <==> forall i :: 0 <= i < |fetched| && fetched[i].member != SENTINEL ==> fetched[i].member in articles)
          && (r.Success? ==>
                && IsSorting(RowsOf(fetched, articles, sortType), s)
                && r.value == ArticlePage.Finish(s, max, articleId, EndsList(fetched)))
          && (r.Failure? ==> r.error == NotFound)
        else
          && redis.View() == Filled(old(redis.View()), articles, userId, sortType, listed, done)
          && r == Success(ArticlePage.Finish(ItemsFor(listed[..Min(size, |listed|)], articles, sortType),
                                            max, articleId, |listed| <= size))
    {
      hide ArticlePage.Finish, Range, Filled, RowsOf, Descending;
      s := [];
      if !IsSortType(sortType) {
        return Failure(SortTypeInvalid), [];
      }
      if userId <= 0 {
        return Failure(UserIdInvalid), [];
      }
      var size := if pageSize == 0 then DEFAULT_PAGE_SIZE else pageSize;
      var max := StartCursor(cursor, sortType, now);
      var fetched := redis.ZrevRangeByScore(ArticlesKey(userId, sortType), max, size);
      if |fetched| > 0 {
        r, s := CachedArticles(fetched, max, articleId, sortType, arrive);
        return;
      }
      var first := if |listed| > size then listed[..size] else listed;
      assert first == listed[..Min(size, |listed|)];
      var page := MakePage(ItemsFor(first, articles, sortType), max, articleId, |listed| <= size);
      AddCacheArticles(userId, sortType, listed, done);
      r := Success(page);
    }
  }

  function StartCursor(cursor: int, sortType: int, now: int): int {
    if cursor != 0 then cursor
    else if sortType == SORT_PUBLISH_TIME then now
    else DEFAULT_LIKE_CURSOR
  }

  /** A request with Cursor 0 starts above a list of past times or of like counts up to 2^30. */
  lemma StartIsAbove(d: seq<Entry>, sortType: int, now: int)
    requires sortType == 0 ==> now > 0 && forall i :: 0 <= i < |d| ==> d[i].score <= now
    requires sortType != 0 ==> forall i :: 0 <= i < |d| ==> d[i].score <= 0x4000_0000
    ensures ArticlePaging.StartsAbove(d, StartCursor(0, sortType, now))
  {
  }

  lemma {:induction false} FillIdsWrites(sets: Store, articles: Table, author: int, sortType: int, ids: seq<int>, k: int)
    requires forall i :: 0 <= i < |ids| ==> ids[i] in articles
    requires forall i, j :: 0 <= i < j < |ids| ==> ids[i] != ids[j]
    ensures var key := ArticlesKey(author, sortType);
      var before, after := Get(sets, key), Get(FillIds(sets, articles, author, sortType, ids), key);
      if k in ids then
        k in after && after[k] == if ScoreOf(articles[k], sortType) < 0 then 0 else ScoreOf(articles[k], sortType)
      else
        (k in after <==> k in before) && (k in before ==> after[k] == before[k])
    decreases |ids|
  {
    if ids != [] {
      hide ScoreOf;
      var score := ScoreOf(articles[ids[0]], sortType);
      var next := Added(sets, ArticlesKey(author, sortType), if score < 0 then 0 else score, ids[0]);
      FillIdsWrites(next, articles, author, sortType, ids[1..], k);
      assert k in ids <==> k == ids[0] || k in ids[1..];
    }
  }

  /**
   What a complete fill of an absent list leaves: the rows found at their numbers, and -1 at score 0
   exactly when fewer than 200 rows were found, but at least one. With -1 in it the list has every
   visible article of the author below the cursor.
   */
  lemma FillWrites(sets: Store, articles: Table, author: int, sortType: int, cursor: int, ids: seq<int>, done: nat)
    requires ArticlesKey(author, sortType) !in sets && done > |ids|
    requires IsListed(articles, author, sortType, cursor, ids) && forall id :: id in articles ==> id > 0
    ensures var m := Get(Filled(sets, articles, author, sortType, ids, done), ArticlesKey(author, sortType));
      && (forall id :: id in ids ==>
            && id in m && articles[id].author == author && articles[id].status == Visible
            && var number := if sortType == 1 then articles[id].likeNum else articles[id].publishTime;
               number < cursor && m[id] == if number < 0 then 0 else number)
      && (forall id :: id in m ==> id in ids || (id == -1 && m[id] == 0))
      && (-1 in m <==> 0 < |ids| < 200)
      && (-1 in m ==> forall id | id in articles && articles[id].author == author && articles[id].status == Visible ::
            (if sortType == 1 then articles[id].likeNum else articles[id].publishTime) < cursor ==> id in m)
  {
    hide FillIds, Added;
    var key := ArticlesKey(author, sortType);
    assert ids[..Min(done, |ids|)] == ids;
    var some := FillIds(sets, articles, author, sortType, ids);
    forall id
      ensures var m := Get(some, key);
        if id in ids then
          id in m && m[id] == if ScoreOf(articles[id], sortType) < 0 then 0 else ScoreOf(articles[id], sortType)
        else id !in m
    {
      FillIdsWrites(sets, articles, author, sortType, ids, id);
    }
    assert Get(Added(some, key, 0, SENTINEL), key) == Get(some, key)[SENTINEL := 0] by { GetAfterAdd(some, key, 0, SENTINEL); }
  }

  lemma GetAfterAdd(sets: Store, key: Key, score: int, member: int)
    ensures Get(Added(sets, key, score, member), key) == Get(sets, key)[member := score]
  {
  }

  /**
   Where scores are those of the rows and no two rows tie, the cached response is the slice of the
   list itself, in list order.
   */
  lemma CachedPageIsSlice(fetched: seq<Entry>, articles: Table, sortType: int, s: seq<Item>)
    requires Sorted(fetched) && fetched != []
    requires forall i :: 0 <= i < |fetched| - 1 ==> fetched[i].member != SENTINEL
    requires forall i :: 0 <= i < |fetched| && fetched[i].member != SENTINEL ==>
      fetched[i].member in articles && fetched[i].score == ScoreOf(articles[fetched[i].member], sortType)
    requires KeysDiffer(multiset(ItemsOf(fetched))) && IsSorting(RowsOf(fetched, articles, sortType), s)
    ensures s == ItemsOf(fetched)
  {
    RowsAreItems(fetched, articles, sortType);
    PageIsSlice(fetched, ItemsOf(fetched), s);
  }

  /** Where the scores of a list are those of the rows, the cached response is a page that the list allows. */
  lemma ServedPageIsAnswer(d: seq<Entry>, articles: Table, sortType: int, cursor: int, articleId: int, size: nat,
                           s: seq<Item>)
    requires Sorted(d) && Range(d, cursor, size) != []
    requires forall i :: 0 <= i < |d| - 1 ==> d[i].member != SENTINEL
    requires forall i :: 0 <= i < |d| && d[i].member != SENTINEL ==>
      d[i].member in articles && d[i].score == ScoreOf(articles[d[i].member], sortType)
    requires var fetched := Range(d, cursor, size);
      (forall i :: 0 <= i < |fetched| && fetched[i].member != SENTINEL ==> fetched[i].member in articles) &&
      IsSorting(RowsOf(fetched, articles, sortType), s)
    ensures var fetched := Range(d, cursor, size);
      ArticlePaging.Answers(d, cursor, articleId, size, ArticlePage.Finish(s, cursor, articleId, EndsList(fetched)))
  {
    hide Sorted, From, ArticlePage.Finish, IsSorting, RowsOf;
    var g, fetched := From(d, cursor), Range(d, cursor, size);
    assert forall i :: 0 <= i < |fetched| ==> fetched[i] == d[g + i];
    RowsAreItems(fetched, articles, sortType);
  }

  lemma RowsAreItems(fetched: seq<Entry>, articles: Table, sortType: int)
    requires fetched != []
    requires forall i :: 0 <= i < |fetched| - 1 ==> fetched[i].member != SENTINEL
    requires forall i :: 0 <= i < |fetched| && fetched[i].member != SENTINEL ==>
      fetched[i].member in articles && fetched[i].score == ScoreOf(articles[fetched[i].member], sortType)
    ensures RowsOf(fetched, articles, sortType) == ItemsOf(fetched)
  {
    var front, last := fetched[..|fetched| - 1], fetched[|fetched| - 1];
    PlainRows(front, articles, sortType);
    if last.member != SENTINEL {
      assert fetched == front + [last];
    }
  }

  lemma {:induction false} PlainRows(kept: seq<Entry>, articles: Table, sortType: int)
    requires forall i :: 0 <= i < |kept| ==>
      && kept[i].member != SENTINEL && kept[i].member in articles
      && kept[i].score == ScoreOf(articles[kept[i].member], sortType)
    ensures RowsOf(kept, articles, sortType) ==
      seq(|kept|, i requires 0 <= i < |kept| => Item(kept[i].member, kept[i].score))
  {
    if kept != [] {
      PlainRows(kept[..|kept| - 1], articles, sortType);
    }
  }
}
