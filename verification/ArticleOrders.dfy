/**
 For which article lists a client sees every article once in whatever order the rows of a fetch
 arrive: those in which no page boundary is tied.
 */
module ArticleOrders {
  import opened SortedSets
  import opened RedisStore
  import opened ArticlePage
  import opened ArticlePaging
  import opened ArticleTies
  import FansPaging

  /** The client stops at the k-th response with every article, each once. */
  ghost predicate ShowsAllBy(d: seq<Entry>, pages: nat -> Page, k: nat)
    requires d != []
  {
    && pages(k).isEnd && (forall j :: 0 <= j < k ==> !pages(j).isEnd)
    && multiset(Seen(pages, k)) == multiset(Items(d[..|d| - 1]))
  }

  /** The article of a rank shares its score with neither neighbour, the sentinel included. */
  predicate Alone(d: seq<Entry>, e: nat)
    requires 0 < e < |d| - 1
  {
    d[e - 1].score > d[e].score > d[e + 1].score
  }

  /** From a page that starts with rank g on, every boundary between two pages is alone. */
  predicate ClearFrom(d: seq<Entry>, g: nat, size: nat)
    requires size > 1
    decreases |d| - g
  {
    g + size < |d| ==> Alone(d, g + size - 1) && ClearFrom(d, g + size - 1, size)
  }

  // ---- One page ----

  lemma AnswerPiece(d: seq<Entry>, cursor: int, articleId: int, size: nat, page: Page) returns (s: seq<Item>)
    requires Complete(d) && size > 0 && From(d, cursor) < |d| - 1 && Answers(d, cursor, articleId, size, page)
    ensures var g := From(d, cursor);
      && IsSorting(Items(d[g..LastFrom(d, g, size) + 1]), s)
      && page == Finish(s, cursor, articleId, g + size >= |d|)
  {
    hide Range, From, ItemsOf, Items, Descending, Finish, Complete;
    FetchedItems(d, cursor, size);
    var fetched := Range(d, cursor, size);
    s :| IsSorting(ItemsOf(fetched), s) && page == Finish(s, cursor, articleId, EndsList(fetched));
  }

  function ItemOf(e: Entry): Item {
    Item(e.member, e.score)
  }

  lemma InPiece(d: seq<Entry>, g: nat, last: nat, s: seq<Item>, item: Item) returns (i: nat)
    requires g <= last < |d| && multiset(s) == multiset(Items(d[g..last + 1])) && item in s
    ensures g <= i <= last && item == ItemOf(d[i])
  {
    var rows := Items(d[g..last + 1]);
    assert item in multiset(rows);
    var j :| 0 <= j < |rows| && rows[j] == item;
    i := g + j;
  }

  /** An alone rank at the end of a piece comes out last, and at its start first. */
  lemma LastStays(d: seq<Entry>, g: nat, last: nat, s: seq<Item>)
    requires Sorted(d) && g <= last < |d| && IsSorting(Items(d[g..last + 1]), s)
    requires last > 0 && d[last - 1].score > d[last].score
    ensures s != [] && s[|s| - 1] == ItemOf(d[last])
  {
    hide Sorted, Descending;
    PieceDescends(d, g, last + 1);
    EndsAgree(Items(d[g..last + 1]), s);
    var i := InPiece(d, g, last, s, s[|s| - 1]);
    if i < last {
      FansPaging.ScoresDescend(d, i, last - 1);
    }
  }

  lemma FirstStays(d: seq<Entry>, g: nat, last: nat, s: seq<Item>)
    requires Sorted(d) && g <= last && last + 1 < |d| && IsSorting(Items(d[g..last + 1]), s)
    requires d[g].score > d[g + 1].score
    ensures s != [] && s[0] == ItemOf(d[g])
  {
    hide Sorted, Descending;
    PieceDescends(d, g, last + 1);
    EndsAgree(Items(d[g..last + 1]), s);
    var i := InPiece(d, g, last, s, s[0]);
    if i > g {
      FansPaging.ScoresDescend(d, g + 1, i);
    }
  }

  /** The rows of a piece are all shown when the boundary item is first or not among them. */
  lemma WholeSorting(d: seq<Entry>, g: nat, last: nat, s: seq<Item>, cursor: int, articleId: int, isEnd: bool)
    requires Complete(d) && g <= last < |d| - 1 && IsSorting(Items(d[g..last + 1]), s)
    requires Item(articleId, cursor) in s ==> s[0] == Item(articleId, cursor)
    ensures s != [] && Finish(s, cursor, articleId, isEnd) == Page(s, s[|s| - 1].key, s[|s| - 1].id, isEnd)
  {
    hide Sorted, Descending;
    PieceDescends(d, g, last + 1);
    EndsAgree(Items(d[g..last + 1]), s);
    assert s[0..] == s;
  }

  // ---- With clear boundaries ----

  /** A response that starts with rank g, when everything down to its end has been seen once. */
  ghost predicate OnTrack(d: seq<Entry>, size: nat, page: Page, seen: seq<Item>, g: nat) {
    && size > 1 && g < |d| - 1
    && var last := LastFrom(d, g, size);
    && page.isEnd == (g + size >= |d|)
    && multiset(seen) == multiset(Items(d[..last + 1]))
    && (last > 0 && d[last - 1].score > d[last].score ==>
          page.cursor == d[last].score && page.articleId == d[last].member)
  }

  /** What is new in a response after the first one. */
  function More(page: Page): seq<Item> {
    if page.items == [] then [] else page.items[1..]
  }

  lemma StartsOnTrack(d: seq<Entry>, start: int, size: nat, page: Page)
    requires Complete(d) && StartsAbove(d, start) && size > 1 && |d| >= 2 && Answers(d, start, 0, size, page)
    ensures OnTrack(d, size, page, page.items, 0)
  {
    hide Descending, Finish, Sorted, Items, Answers, From;
    FansPaging.FromIs(d, start, 0);
    var s := AnswerPiece(d, start, 0, size, page);
    var last := LastFrom(d, 0, size);
    if Item(0, start) in s {
      var i := InPiece(d, 0, last, s, Item(0, start));
    }
    WholeSorting(d, 0, last, s, start, 0, size >= |d|);
    if last > 0 && d[last - 1].score > d[last].score {
      LastStays(d, 0, last, s);
    }
  }

  /** One item and the rest of a piece. */
  lemma SplitPiece(d: seq<Entry>, g: nat, last: nat, s: seq<Item>)
    requires g <= last < |d| && multiset(s) == multiset(Items(d[g..last + 1])) && s != [] && s[0] == ItemOf(d[g])
    ensures multiset(Items(d[..g + 1])) + multiset(s[1..]) == multiset(Items(d[..last + 1]))
  {
    var rows := Items(d[g..last + 1]);
    assert rows[0] == ItemOf(d[g]);
    TailsAgree(s, rows);
    assert rows[1..] == Items(d[g + 1..last + 1]);
    assert Items(d[..last + 1]) == Items(d[..g + 1]) + Items(d[g + 1..last + 1]);
  }

  lemma StaysOnTrack(d: seq<Entry>, start: int, size: nat, page: Page, seen: seq<Item>, next: Page, g: nat)
    requires Complete(d) && size > 1 && Follows(d, start, size, page, next) && OnTrack(d, size, page, seen, g)
    requires g + size < |d| && Alone(d, g + size - 1)
    ensures OnTrack(d, size, next, seen + More(next), g + size - 1)
  {
    hide IsSorting, Complete, Items, From, Answers, More;
    var e := g + size - 1;
    AloneIsPositive(d, e);
    var s := PageAfter(d, e, size, next);
    TrackGoesOn(d, size, seen, next, e, s);
  }

  lemma TrackGoesOn(d: seq<Entry>, size: nat, seen: seq<Item>, next: Page, e: nat, s: seq<Item>)
    requires Complete(d) && size > 1 && e < |d| - 1 && multiset(seen) == multiset(Items(d[..e + 1]))
    requires var last := LastFrom(d, e, size);
      && IsSorting(Items(d[e..last + 1]), s) && multiset(s) == multiset(Items(d[e..last + 1]))
      && s != [] && s[0] == ItemOf(d[e])
      && next == Page(s, s[|s| - 1].key, s[|s| - 1].id, e + size >= |d|)
    ensures OnTrack(d, size, next, seen + More(next), e)
  {
    hide IsSorting, Complete, Items;
    var last := LastFrom(d, e, size);
    SplitPiece(d, e, last, s);
    assert multiset(seen + s[1..]) == multiset(seen) + multiset(s[1..]);
    EndStays(d, e, last, s);
  }

  lemma EndStays(d: seq<Entry>, g: nat, last: nat, s: seq<Item>)
    requires Complete(d) && g <= last < |d| && IsSorting(Items(d[g..last + 1]), s) && s != []
    ensures last > 0 && d[last - 1].score > d[last].score ==> s[|s| - 1] == ItemOf(d[last])
  {
    hide IsSorting, Sorted, Items;
    if last > 0 && d[last - 1].score > d[last].score {
      LastStays(d, g, last, s);
    }
  }

  lemma AloneIsPositive(d: seq<Entry>, e: nat)
    requires Complete(d) && 0 < e < |d| - 1 && Alone(d, e)
    ensures d[e].score > 0
  {
  }

  /** A page asked for from an alone boundary is whole and starts with that. */
  lemma PageAfter(d: seq<Entry>, e: nat, size: nat, page: Page) returns (s: seq<Item>)
    requires Complete(d) && size > 1 && 0 < e < |d| - 1 && Alone(d, e)
    requires Answers(d, d[e].score, d[e].member, size, page)
    ensures var last := LastFrom(d, e, size);
      && IsSorting(Items(d[e..last + 1]), s) && multiset(s) == multiset(Items(d[e..last + 1]))
      && s != [] && s[0] == ItemOf(d[e])
      && page == Page(s, s[|s| - 1].key, s[|s| - 1].id, e + size >= |d|)
  {
    hide Descending, Finish, Sorted, Items, Answers, From;
    FromAlone(d, e);
    s := AnswerPiece(d, d[e].score, d[e].member, size, page);
    var last := LastFrom(d, e, size);
    FirstStays(d, e, last, s);
    WholeSorting(d, e, last, s, d[e].score, d[e].member, e + size >= |d|);
  }

  lemma FromAlone(d: seq<Entry>, e: nat)
    requires Complete(d) && 0 < e < |d| - 1 && d[e - 1].score > d[e].score
    ensures From(d, d[e].score) == e
  {
    hide Ordered, Distinct, From;
    forall j | 0 <= j < e
      ensures d[j].score > d[e].score
    {
      FansPaging.ScoresDescend(d, j, e - 1);
    }
    FansPaging.FromIs(d, d[e].score, e);
  }

  lemma RunFollows(d: seq<Entry>, start: int, size: nat, pages: nat -> Page, k: nat)
    requires IsRun(d, start, size, pages)
    ensures Follows(d, start, size, pages(k), pages(k + 1))
    ensures Seen(pages, k + 1) == Seen(pages, k) + More(pages(k + 1))
  {
    hide Follows;
  }

  lemma EndShowsAll(d: seq<Entry>, size: nat, pages: nat -> Page, k: nat, g: nat)
    requires d != [] && OnTrack(d, size, pages(k), Seen(pages, k), g) && g + size >= |d|
    requires forall j :: 0 <= j < k ==> !pages(j).isEnd
    ensures ShowsAllBy(d, pages, k)
  {
    hide Items, Seen;
  }

  lemma NotYet(d: seq<Entry>, size: nat, page: Page, seen: seq<Item>, g: nat)
    requires OnTrack(d, size, page, seen, g)
    ensures g < |d| - 1 && page.isEnd == (g + size >= |d|)
  {
    hide Items;
  }

  lemma {:induction false} ClearShowsAll(d: seq<Entry>, start: int, size: nat, pages: nat -> Page, k: nat, g: nat)
    returns (n: nat)
    requires Complete(d) && size > 1 && IsRun(d, start, size, pages) && OnTrack(d, size, pages(k), Seen(pages, k), g)
    requires ClearFrom(d, g, size) && forall j :: 0 <= j < k ==> !pages(j).isEnd
    ensures ShowsAllBy(d, pages, n)
    decreases |d| - g
  {
    hide Complete, Items, IsRun, Seen, ShowsAllBy, Follows, Alone, OnTrack, More;
    NotYet(d, size, pages(k), Seen(pages, k), g);
    if g + size >= |d| {
      n := k;
      EndShowsAll(d, size, pages, k, g);
    } else {
      RunFollows(d, start, size, pages, k);
      StaysOnTrack(d, start, size, pages(k), Seen(pages, k), pages(k + 1), g);
      n := ClearShowsAll(d, start, size, pages, k + 1, g + size - 1);
    }
  }

  // ---- A run in list order but for one response ----

  function Twisted(d: seq<Entry>, start: int, size: nat, at: nat, s: seq<Item>, k: nat): Page {
    if k == 0 then Response(d, start, 0, size)
    else
      var previous := Twisted(d, start, size, at, s, k - 1);
      var cursor := FansPaging.StartOf(previous.cursor, start);
      if k == at then Finish(s, cursor, previous.articleId, EndsList(Range(d, cursor, size)))
      else Response(d, cursor, previous.articleId, size)
  }

  lemma ResponseIsAnswer(d: seq<Entry>, cursor: int, articleId: int, size: nat)
    requires Complete(d) && size > 0
    ensures Answers(d, cursor, articleId, size, Response(d, cursor, articleId, size))
  {
    hide Range, Descending, Finish, ItemsOf;
    FetchDescends(d, cursor, size);
    var items := ItemsOf(Range(d, cursor, size));
    assert IsSorting(items, items);
  }

  lemma {:induction false} TwistedBefore(d: seq<Entry>, start: int, size: nat, at: nat, s: seq<Item>, k: nat)
    requires k < at
    ensures Twisted(d, start, size, at, s, k) == Nth(d, start, size, k)
  {
    hide Response;
    if k > 0 {
      TwistedBefore(d, start, size, at, s, k - 1);
    }
  }

  lemma TwistedFollows(d: seq<Entry>, start: int, size: nat, at: nat, s: seq<Item>, k: nat)
    requires Complete(d) && size > 0 && at > 0
    requires var cursor := FansPaging.StartOf(Nth(d, start, size, at - 1).cursor, start);
      IsSorting(ItemsOf(Range(d, cursor, size)), s)
    ensures Follows(d, start, size, Twisted(d, start, size, at, s, k), Twisted(d, start, size, at, s, k + 1))
  {
    hide Range, Finish, ItemsOf, Response, Nth, IsSorting, Complete;
    var previous := Twisted(d, start, size, at, s, k);
    if k + 1 == at {
      TwistedBefore(d, start, size, at, s, k);
    } else {
      ResponseIsAnswer(d, FansPaging.StartOf(previous.cursor, start), previous.articleId, size);
    }
  }

  /** After rank k the responses come in list order. */
  ghost predicate InListOrder(d: seq<Entry>, start: int, size: nat, pages: nat -> Page, k: nat) {
    forall j: nat :: j >= k ==>
      pages(j + 1) == Response(d, FansPaging.StartOf(pages(j).cursor, start), pages(j).articleId, size)
  }

  /** The run that follows the list up to response k and then shows the fetched rows as s. */
  lemma RunWith(d: seq<Entry>, start: int, size: nat, k: nat, s: seq<Item>) returns (pages: nat -> Page)
    requires Complete(d) && size > 0
    requires var cursor := FansPaging.StartOf(Nth(d, start, size, k).cursor, start);
      IsSorting(ItemsOf(Range(d, cursor, size)), s)
    ensures IsRun(d, start, size, pages) && InListOrder(d, start, size, pages, k + 1)
    ensures forall j :: 0 <= j <= k ==> pages(j) == Nth(d, start, size, j)
    ensures Seen(pages, k) == Collected(d, start, size, k)
    ensures var cursor := FansPaging.StartOf(Nth(d, start, size, k).cursor, start);
      pages(k + 1) == Finish(s, cursor, Nth(d, start, size, k).articleId, EndsList(Range(d, cursor, size)))
  {
    hide Finish, Range, ItemsOf, Response, Nth, Complete, IsSorting;
    pages := (j: nat) => Twisted(d, start, size, k + 1, s, j);
    forall j | 0 <= j <= k
      ensures pages(j) == Nth(d, start, size, j)
    {
      TwistedBefore(d, start, size, k + 1, s, j);
    }
    forall j: nat
      ensures Follows(d, start, size, pages(j), pages(j + 1))
    {
      TwistedFollows(d, start, size, k + 1, s, j);
    }
    assert Nth(d, start, size, 0) == Response(d, start, 0, size) by { FirstNth(d, start, size); }
    ResponseIsAnswer(d, start, 0, size);
    SeenIsCollected(d, start, size, pages, k);
  }

  lemma FirstNth(d: seq<Entry>, start: int, size: nat)
    ensures Nth(d, start, size, 0) == Response(d, start, 0, size)
  {
  }

  lemma {:induction false} SeenIsCollected(d: seq<Entry>, start: int, size: nat, pages: nat -> Page, k: nat)
    requires forall j :: 0 <= j <= k ==> pages(j) == Nth(d, start, size, j)
    ensures Seen(pages, k) == Collected(d, start, size, k)
  {
    hide Nth;
    if k > 0 {
      SeenIsCollected(d, start, size, pages, k - 1);
    }
  }

  // ---- Seeing an article twice ----

  ghost predicate Doubled(all: seq<Item>) {
    exists item :: multiset(all)[item] > 1
  }

  lemma {:induction false} DoubledStays(pages: nat -> Page, k: nat, n: nat)
    requires k <= n && Doubled(Seen(pages, k))
    ensures Doubled(Seen(pages, n))
  {
    hide Doubled;
    if k < n {
      DoubledStays(pages, k, n - 1);
      MoreIsDoubled(Seen(pages, n - 1), if pages(n).items == [] then [] else pages(n).items[1..]);
    }
  }

  lemma MoreIsDoubled(all: seq<Item>, more: seq<Item>)
    requires Doubled(all)
    ensures Doubled(all + more)
  {
    var item :| multiset(all)[item] > 1;
    assert multiset(all + more)[item] == multiset(all)[item] + multiset(more)[item];
  }

  lemma AgainIsDoubled(all: seq<Item>, more: seq<Item>, item: Item)
    requires item in all && item in more
    ensures Doubled(all + more)
  {
    assert multiset(all + more)[item] == multiset(all)[item] + multiset(more)[item];
  }

  lemma {:induction false} EachOnce(d: seq<Entry>, n: nat, item: Item)
    requires Distinct(d) && n <= |d|
    ensures multiset(Items(d[..n]))[item] <= 1
  {
    if n > 0 {
      EachOnce(d, n - 1, item);
      assert Items(d[..n]) == Items(d[..n - 1]) + [ItemOf(d[n - 1])];
      var front := Items(d[..n - 1]);
      assert forall i :: 0 <= i < |front| ==> front[i] != ItemOf(d[n - 1]);
    }
  }

  lemma DoubledIsNotAll(d: seq<Entry>, pages: nat -> Page, k: nat, n: nat)
    requires Complete(d) && Doubled(Seen(pages, k)) && forall j :: 0 <= j < k ==> !pages(j).isEnd
    ensures !ShowsAllBy(d, pages, n)
  {
    if ShowsAllBy(d, pages, n) {
      DoubledStays(pages, k, n);
      var item :| multiset(Seen(pages, n))[item] > 1;
      EachOnce(d, |d| - 1, item);
      assert false;
    }
  }

  // ---- What goes wrong at a tied boundary ----

  /** The list-order run has got to a page that starts with rank g and is not the last one. */
  ghost predicate Reached(d: seq<Entry>, start: int, size: nat, k: nat, g: nat) {
    && size > 1 && g + size < |d| && (g > 0 ==> d[g - 1].score > d[g].score)
    && Nth(d, start, size, k) == PieceAt(d, g, size)
    && Collected(d, start, size, k) == Items(d[..g + size])
    && forall j :: 0 <= j <= k ==> !Nth(d, start, size, j).isEnd
  }

  lemma InPrefix(d: seq<Entry>, n: nat, i: nat)
    requires i < n <= |d|
    ensures ItemOf(d[i]) in Items(d[..n])
  {
    assert Items(d[..n])[i] == ItemOf(d[i]);
  }

  ghost predicate Repeats(page: Page, item: Item) {
    page.items != [] && item in page.items[1..]
  }

  /** A response that repeats a seen article after its first item. */
  lemma SeesTwice(d: seq<Entry>, pages: nat -> Page, k: nat, n: nat, i: nat)
    requires i < n <= |d| && Seen(pages, k) == Items(d[..n])
    requires Repeats(pages(k + 1), ItemOf(d[i]))
    ensures Doubled(Seen(pages, k + 1))
  {
    hide Items, Doubled;
    InPrefix(d, n, i);
    AgainIsDoubled(Seen(pages, k), pages(k + 1).items[1..], ItemOf(d[i]));
  }

  lemma ReachedPage(d: seq<Entry>, start: int, size: nat, k: nat, g: nat)
    requires Reached(d, start, size, k, g)
    ensures Nth(d, start, size, k).cursor == d[g + size - 1].score
    ensures Nth(d, start, size, k).articleId == d[g + size - 1].member
  {
    hide Nth, Collected, Items;
  }

  /** The run in list order. */
  lemma ListRun(d: seq<Entry>, start: int, size: nat, k: nat) returns (pages: nat -> Page)
    requires Complete(d) && size > 0
    ensures IsRun(d, start, size, pages)
    ensures forall j :: 0 <= j <= k ==> pages(j) == Nth(d, start, size, j)
    ensures Seen(pages, k) == Collected(d, start, size, k)
    ensures var page := Nth(d, start, size, k);
      pages(k + 1) == Response(d, FansPaging.StartOf(page.cursor, start), page.articleId, size)
  {
    hide Finish, Range, ItemsOf, Nth, Complete, Descending, IsRun, InListOrder, Seen, Collected;
    var cursor := FansPaging.StartOf(Nth(d, start, size, k).cursor, start);
    FetchDescends(d, cursor, size);
    var rows := ItemsOf(Range(d, cursor, size));
    assert IsSorting(rows, rows);
    pages := RunWith(d, start, size, k, rows);
  }

  lemma TopAgain(d: seq<Entry>, start: int, size: nat, e: nat)
    requires Complete(d) && StartsAbove(d, start) && size > 1 && e < |d| - 1 && d[e].score == 0 && |d| > 2
    ensures Repeats(Response(d, start, d[e].member, size), ItemOf(d[1]))
  {
    hide Sorted, Response;
    PieceAgain(d, start, size, e);
    var items := Items(d[0..LastFrom(d, 0, size) + 1]);
    assert items[1..][0] == ItemOf(d[1]);
  }

  /** A run that has seen an article twice before any isEnd does not show all. */
  lemma DoubledFails(d: seq<Entry>, pages: nat -> Page, k: nat)
    requires Complete(d) && Doubled(Seen(pages, k)) && forall j :: 0 <= j < k ==> !pages(j).isEnd
    ensures forall n: nat :: !ShowsAllBy(d, pages, n)
  {
    hide ShowsAllBy;
    forall n: nat
      ensures !ShowsAllBy(d, pages, n)
    {
      DoubledIsNotAll(d, pages, k, n);
    }
  }

  /** Score 0 at the boundary: the first page comes again. */
  lemma FailsAtZero(d: seq<Entry>, start: int, size: nat, k: nat, g: nat) returns (pages: nat -> Page)
    requires Complete(d) && StartsAbove(d, start) && Reached(d, start, size, k, g)
    requires d[g + size - 1].score == 0
    ensures IsRun(d, start, size, pages) && forall n: nat :: !ShowsAllBy(d, pages, n)
  {
    hide Nth, Complete, IsRun, Collected, Seen, ShowsAllBy, Response, PieceAt, Items, Doubled;
    ReachedPage(d, start, size, k, g);
    pages := ListRun(d, start, size, k);
    TopAgain(d, start, size, g + size - 1);
    SeesTwice(d, pages, k, g + size, 1);
    DoubledFails(d, pages, k + 1);
  }

  /** The rank r row of a piece may come out first when it ties with the first one. */
  lemma ToFront(rows: seq<Item>, r: nat) returns (s: seq<Item>)
    requires Descending(rows) && r < |rows| && rows[r].key == rows[0].key
    ensures IsSorting(rows, s) && s == [rows[r]] + (rows[..r] + rows[r + 1..])
  {
    hide Descending;
    var rest := rows[..r] + rows[r + 1..];
    s := [rows[r]] + rest;
    FrontDescends(rows, r);
    InsertKeepsRows(rest, r, rows[r]);
    InsertKeepsRows(rest, 0, rows[r]);
    assert rows == rest[..r] + [rows[r]] + rest[r..];
    assert s == rest[..0] + [rows[r]] + rest[0..];
  }

  lemma FrontDescends(rows: seq<Item>, r: nat)
    requires Descending(rows) && r < |rows| && rows[r].key == rows[0].key
    ensures Descending([rows[r]] + (rows[..r] + rows[r + 1..]))
  {
    var s := [rows[r]] + (rows[..r] + rows[r + 1..]);
    assert forall i :: 0 < i < |s| ==> s[i] == rows[if i <= r then i - 1 else i];
  }

  /** A tie above the boundary: the article above it may be shown again. */
  lemma FailsAbove(d: seq<Entry>, start: int, size: nat, k: nat, g: nat) returns (pages: nat -> Page)
    requires Complete(d) && StartsAbove(d, start) && Reached(d, start, size, k, g)
    requires d[g + size - 2].score == d[g + size - 1].score > 0
    ensures IsRun(d, start, size, pages) && forall n: nat :: !ShowsAllBy(d, pages, n)
  {
    hide Nth, Complete, IsRun, Collected, Seen, ShowsAllBy, Response, PieceAt, Items, Doubled;
    hide Range, From, Finish, IsSorting, ItemsOf, InListOrder;
    var e := g + size - 1;
    ReachedPage(d, start, size, k, g);
    var s := AboveAgain(d, size, g);
    pages := RunWith(d, start, size, k, s);
    SeesTwice(d, pages, k, g + size, e - 1);
    DoubledFails(d, pages, k + 1);
  }

  lemma GroupStart(d: seq<Entry>, g: nat, e: nat)
    requires Complete(d) && g < e < |d| - 1 && d[e - 1].score == d[e].score
    requires g > 0 ==> d[g - 1].score > d[g].score
    ensures g <= From(d, d[e].score) < e && d[From(d, d[e].score)].score == d[e].score
  {
    hide Ordered, Distinct, From;
    FansPaging.LowerOrEqualIsFrom(d, d[e].score, e - 1);
    FansPaging.ScoresDescend(d, From(d, d[e].score), e);
    FansPaging.ScoresDescend(d, g, e);
    if g > 0 {
      FansPaging.HigherIsBefore(d, d[e].score, g - 1);
    }
  }

  /** An order of the next fetch that starts with the boundary and has the article above it later. */
  lemma AboveAgain(d: seq<Entry>, size: nat, g: nat) returns (s: seq<Item>)
    requires Complete(d) && size > 1 && g + size < |d| && d[g + size - 2].score == d[g + size - 1].score
    requires g > 0 ==> d[g - 1].score > d[g].score
    ensures var e := g + size - 1; var fetched := Range(d, d[e].score, size);
      && IsSorting(ItemsOf(fetched), s)
      && Repeats(Finish(s, d[e].score, d[e].member, EndsList(fetched)), ItemOf(d[e - 1]))
  {
    hide Sorted, Range, From, ItemsOf, EndsList, Descending, IsSorting, Items, Finish;
    var e := g + size - 1;
    GroupStart(d, g, e);
    var a := From(d, d[e].score);
    FetchedItems(d, d[e].score, size);
    var last := LastFrom(d, a, size);
    PieceDescends(d, a, last + 1);
    ItemsAt(d, a, last);
    var rows := Items(d[a..last + 1]);
    s := ToFront(rows, e - a);
    FrontIsWhole(s, d[e].score, d[e].member, a + size >= |d|);
    assert s[1..][e - 1 - a] == rows[e - 1 - a];
  }

  lemma FrontIsWhole(s: seq<Item>, cursor: int, articleId: int, isEnd: bool)
    requires s != [] && s[0] == Item(articleId, cursor)
    ensures Finish(s, cursor, articleId, isEnd).items == s
  {
    assert s[0..] == s;
  }

  // ---- A tie below the boundary ----

  /** An article is not seen yet, the cursor is below it, and the top of the list has been seen. */
  ghost predicate Lost(d: seq<Entry>, pages: nat -> Page, k: nat, missed: Item) {
    && |d| > 2 && missed !in Seen(pages, k) && ItemOf(d[1]) in Seen(pages, k)
    && pages(k).cursor < missed.key
    && exists r :: 0 <= r < |d| - 1 && d[r] == Entry(pages(k).cursor, pages(k).articleId)
  }

  lemma PieceIsOld(d: seq<Entry>, cursor: int, articleId: int, size: nat)
    requires Complete(d) && size > 0 && From(d, cursor) < |d| - 1
    ensures var page := Response(d, cursor, articleId, size);
      && (forall item :: item in page.items ==> item.key <= cursor)
      && page.cursor <= cursor
      && exists r :: 0 <= r < |d| - 1 && d[r] == Entry(page.cursor, page.articleId)
  {
    hide Sorted, Range, ItemsOf, EndsList, From, BoundaryIn, Items;
    FetchedItems(d, cursor, size);
    var g := From(d, cursor);
    var last := LastFrom(d, g, size);
    ItemsAt(d, g, last);
    var rows := Items(d[g..last + 1]);
    forall i | 0 <= i < |rows|
      ensures rows[i].key <= cursor
    {
      FansPaging.ScoresDescend(d, g, g + i);
    }
    assert d[last] == Entry(d[last].score, d[last].member);
  }

  lemma LostGoesOn(d: seq<Entry>, start: int, size: nat, pages: nat -> Page, k: nat, missed: Item)
    requires Complete(d) && StartsAbove(d, start) && size > 1 && Lost(d, pages, k, missed)
    requires pages(k + 1) == Response(d, FansPaging.StartOf(pages(k).cursor, start), pages(k).articleId, size)
    ensures Lost(d, pages, k + 1, missed) || Doubled(Seen(pages, k + 1))
  {
    hide Sorted, Response, From, Doubled;
    var r :| 0 <= r < |d| - 1 && d[r] == Entry(pages(k).cursor, pages(k).articleId);
    var more := pages(k + 1).items;
    if pages(k).cursor == 0 {
      TopAgain(d, start, size, r);
      AgainIsDoubled(Seen(pages, k), more[1..], ItemOf(d[1]));
    } else {
      FansPaging.LowerOrEqualIsFrom(d, pages(k).cursor, r);
      PieceIsOld(d, pages(k).cursor, pages(k).articleId, size);
      assert forall item :: item in more ==> item != missed;
      assert forall item :: item in (if more == [] then [] else more[1..]) ==> item in more;
    }
  }

  lemma {:induction false} LostOrDoubled(d: seq<Entry>, start: int, size: nat, pages: nat -> Page, k: nat, missed: Item, n: nat)
    requires Complete(d) && StartsAbove(d, start) && size > 1 && Lost(d, pages, k, missed)
    requires InListOrder(d, start, size, pages, k) && n >= k
    ensures Lost(d, pages, n, missed) || Doubled(Seen(pages, n))
  {
    hide Lost, Doubled, Response, Complete;
    if n > k {
      LostOrDoubled(d, start, size, pages, k, missed, n - 1);
      assert pages(n - 1 + 1) == Response(d, FansPaging.StartOf(pages(n - 1).cursor, start), pages(n - 1).articleId, size);
      if Doubled(Seen(pages, n - 1)) {
        DoubledStays(pages, n - 1, n);
      } else {
        LostGoesOn(d, start, size, pages, n - 1, missed);
      }
    }
  }

  lemma MissedFails(d: seq<Entry>, pages: nat -> Page, i: nat, n: nat)
    requires Complete(d) && i < |d| - 1 && ItemOf(d[i]) !in Seen(pages, n)
    ensures !ShowsAllBy(d, pages, n)
  {
    hide Items, Seen, Sorted;
    InPrefix(d, |d| - 1, i);
    var all, seen, item := Items(d[..|d| - 1]), Seen(pages, n), ItemOf(d[i]);
    assert item in multiset(all) && item !in multiset(seen);
  }

  /** An order of the next fetch that has the article below the boundary above it. */
  lemma BelowSkipped(d: seq<Entry>, size: nat, e: nat) returns (s: seq<Item>)
    requires Complete(d) && size > 1 && 0 < e && e + 1 < |d| - 1
    requires d[e - 1].score > d[e].score == d[e + 1].score
    ensures IsSorting(ItemsOf(Range(d, d[e].score, size)), s)
    ensures Skips(d, e, Finish(s, d[e].score, d[e].member, EndsList(Range(d, d[e].score, size))), size)
  {
    hide Sorted, Range, From, ItemsOf, EndsList, Descending, Items, Finish, Skips;
    FromAlone(d, e);
    FetchedItems(d, d[e].score, size);
    var last := LastFrom(d, e, size);
    PieceDescends(d, e, last + 1);
    ItemsAt(d, e, last);
    var rows := Items(d[e..last + 1]);
    assert d[e].member != d[e + 1].member by { NextIsOther(d, e); }
    s := SwapTie(rows, 0, 1);
    SwappedSkips(d, size, e, rows, s);
  }

  lemma NextIsOther(d: seq<Entry>, e: nat)
    requires Sorted(d) && e + 1 < |d|
    ensures d[e].member != d[e + 1].member
  {
  }

  /** A page from rank e on without the article of the next rank, but with the usual end. */
  ghost predicate Skips(d: seq<Entry>, e: nat, page: Page, size: nat)
    requires size > 1 && e + 1 < |d| - 1
  {
    var last := LastFrom(d, e, size);
    && page.items != [] && ItemOf(d[e + 1]) !in page.items[1..]
    && page.cursor == d[last].score && page.isEnd == (e + size >= |d|)
    && exists r :: 0 <= r < |d| - 1 && d[r] == Entry(page.cursor, page.articleId)
  }

  lemma SwappedSkips(d: seq<Entry>, size: nat, e: nat, rows: seq<Item>, s: seq<Item>)
    requires Complete(d) && size > 1 && e + 1 < |d| - 1 && d[e].score == d[e + 1].score
    requires var last := LastFrom(d, e, size);
      && |rows| == last + 1 - e
      && forall i :: 0 <= i < |rows| ==> rows[i] == ItemOf(d[e + i])
    requires s == rows[0 := rows[1]][1 := rows[0]]
    ensures Skips(d, e, Finish(s, d[e].score, d[e].member, e + size >= |d|), size)
  {
    hide Ordered, Finish;
    var last := LastFrom(d, e, size);
    var n := |s| - 1;
    assert s[n] == if n == 1 then ItemOf(d[e]) else ItemOf(d[last]);
    forall i | 0 <= i < |s| && i != 1
      ensures s[i] != Item(d[e].member, d[e].score)
    {
      assert i == 0 ==> s[i] == ItemOf(d[e + 1]);
      assert i > 1 ==> s[i] == ItemOf(d[e + i]);
    }
    FinishFrom(s, 1, d[e].score, d[e].member, e + size >= |d|);
    assert forall i :: 0 <= i < |s[1..][1..]| ==> s[1..][1..][i] == ItemOf(d[e + 2 + i]);
    assert d[if n == 1 then e else last] == Entry(s[n].key, s[n].id);
  }

  /** A tie below the boundary alone: the article below it may be skipped for ever. */
  lemma FailsBelow(d: seq<Entry>, start: int, size: nat, k: nat, g: nat) returns (pages: nat -> Page)
    requires Complete(d) && StartsAbove(d, start) && Reached(d, start, size, k, g)
    requires g + size < |d| - 1
    requires d[g + size - 2].score > d[g + size - 1].score == d[g + size].score > 0
    ensures IsRun(d, start, size, pages) && forall n: nat :: !ShowsAllBy(d, pages, n)
  {
    hide Nth, Complete, IsRun, Collected, Response, PieceAt, Items, Range, From, Finish, IsSorting, ItemsOf;
    hide Seen, ShowsAllBy, InListOrder, Uncrowded, LandsOnZero;
    var e := g + size - 1;
    ReachedPage(d, start, size, k, g);
    var s := BelowSkipped(d, size, e);
    pages := RunWith(d, start, size, k, s);
    forall n: nat
      ensures !ShowsAllBy(d, pages, n)
    {
      SkippedFails(d, start, size, pages, k, e, n);
    }
  }

  lemma SkippedFails(d: seq<Entry>, start: int, size: nat, pages: nat -> Page, k: nat, e: nat, n: nat)
    requires Complete(d) && StartsAbove(d, start) && size > 1 && 0 < e && e + 1 < |d| - 1
    requires IsRun(d, start, size, pages) && InListOrder(d, start, size, pages, k + 1)
    requires d[e].score == d[e + 1].score && Seen(pages, k) == Items(d[..e + 1])
    requires (forall j :: 0 <= j <= k ==> !pages(j).isEnd) && Skips(d, e, pages(k + 1), size)
    ensures !ShowsAllBy(d, pages, n)
  {
    assert pages(k + 1).isEnd == (e + size >= |d|);
    hide IsRun, InListOrder, Items, Complete, Seen, ShowsAllBy, Doubled, Lost, Skips, Uncrowded, LandsOnZero;
    StillMissing(d, pages, k, e, size);
    if n == k + 1 {
      MissedFails(d, pages, e + 1, n);
    } else if n <= k || pages(k + 1).isEnd {
      NotAfterEnd(d, pages, n, k);
    } else if d[e + size - 1].score == d[e].score {
      CrowdFails(d, start, size, pages, e, n);
    } else {
      var missed := ItemOf(d[e + 1]);
      BecomesLost(d, pages, k, e, size);
      LostOrDoubled(d, start, size, pages, k + 1, missed, n);
      if Doubled(Seen(pages, n)) {
        DoubledIsNotAllYet(d, pages, n);
      } else {
        assert missed !in Seen(pages, n) by { LostIsMissing(d, pages, n, missed); }
        MissedFails(d, pages, e + 1, n);
      }
    }
  }

  lemma LostIsMissing(d: seq<Entry>, pages: nat -> Page, n: nat, missed: Item)
    requires Lost(d, pages, n, missed)
    ensures missed !in Seen(pages, n)
  {
  }

  lemma NotAfterEnd(d: seq<Entry>, pages: nat -> Page, n: nat, k: nat)
    requires d != [] && (if n <= k then !pages(n).isEnd else n > k + 1 && pages(k + 1).isEnd)
    ensures !ShowsAllBy(d, pages, n)
  {
    hide Seen, Items;
  }

  lemma CrowdFails(d: seq<Entry>, start: int, size: nat, pages: nat -> Page, e: nat, n: nat)
    requires Complete(d) && StartsAbove(d, start) && size > 0 && IsRun(d, start, size, pages)
    requires 0 < e && e + size < |d| && d[e].score == d[e + size - 1].score
    ensures !ShowsAllBy(d, pages, n)
  {
    hide IsRun, Seen, Items, LandsOnZero;
    EveryOrderEndsIff(d, start, size, pages);
  }

  lemma BecomesLost(d: seq<Entry>, pages: nat -> Page, k: nat, e: nat, size: nat)
    requires Complete(d) && size > 1 && 0 < e && e + 1 < |d| - 1 && Skips(d, e, pages(k + 1), size)
    requires d[e].score == d[e + 1].score && !pages(k + 1).isEnd && d[e + size - 1].score != d[e].score
    requires ItemOf(d[e + 1]) !in Seen(pages, k + 1) && ItemOf(d[1]) in Seen(pages, k + 1)
    ensures Lost(d, pages, k + 1, ItemOf(d[e + 1]))
  {
    hide Ordered, Distinct, Seen;
    FansPaging.ScoresDescend(d, e, e + size - 1);
  }

  lemma DoubledIsNotAllYet(d: seq<Entry>, pages: nat -> Page, n: nat)
    requires Complete(d) && Doubled(Seen(pages, n))
    ensures !ShowsAllBy(d, pages, n)
  {
    hide Doubled;
    if ShowsAllBy(d, pages, n) {
      DoubledIsNotAll(d, pages, n, n);
    }
  }

  lemma StillMissing(d: seq<Entry>, pages: nat -> Page, k: nat, e: nat, size: nat)
    requires Complete(d) && size > 1 && 0 < e && e + 1 < |d| - 1
    requires Seen(pages, k) == Items(d[..e + 1]) && Skips(d, e, pages(k + 1), size)
    ensures ItemOf(d[e + 1]) !in Seen(pages, k + 1) && ItemOf(d[1]) in Seen(pages, k + 1)
  {
    hide Ordered;
    var seen := Items(d[..e + 1]);
    assert forall i :: 0 <= i < |seen| ==> seen[i] != ItemOf(d[e + 1]);
    InPrefix(d, e + 1, 1);
    assert Seen(pages, k + 1) == seen + pages(k + 1).items[1..];
  }

  // ---- The exact condition ----

  lemma NextAlone(d: seq<Entry>, start: int, size: nat, k: nat, g: nat)
    requires Complete(d) && Reached(d, start, size, k, g) && Alone(d, g + size - 1)
    ensures Nth(d, start, size, k + 1) == PieceAt(d, g + size - 1, size)
    ensures Collected(d, start, size, k + 1) == Items(d[..LastFrom(d, g + size - 1, size) + 1])
  {
    hide Ordered, Response, Items, Range, From, Nth, Collected;
    var e := g + size - 1;
    ReachedPage(d, start, size, k, g);
    AloneIsPositive(d, e);
    FromAlone(d, e);
    assert forall i :: e < i < |d| - 1 ==> d[i].member != d[e].member;
    PageFrom(d, e, d[e].score, d[e].member, size);
    NextQuery(d, start, size, k);
    NextCollected(d, start, size, k);
    JoinPieces(d, e, LastFrom(d, e, size));
  }

  /** The list-order run has got to the page that starts with rank g, over alone boundaries. */
  ghost predicate Arrived(d: seq<Entry>, start: int, size: nat, k: nat, g: nat) {
    && size > 1 && g < |d| - 1 && (g > 0 ==> d[g - 1].score > d[g].score)
    && Nth(d, start, size, k) == PieceAt(d, g, size)
    && Collected(d, start, size, k) == Items(d[..LastFrom(d, g, size) + 1])
    && forall j :: 0 <= j < k ==> !Nth(d, start, size, j).isEnd
  }

  lemma ArrivedIsReached(d: seq<Entry>, start: int, size: nat, k: nat, g: nat)
    requires Arrived(d, start, size, k, g) && g + size < |d|
    ensures Reached(d, start, size, k, g)
  {
    hide Nth, Collected, Items;
  }

  lemma ArrivesNext(d: seq<Entry>, start: int, size: nat, k: nat, g: nat)
    requires Complete(d) && Reached(d, start, size, k, g) && Alone(d, g + size - 1)
    ensures Arrived(d, start, size, k + 1, g + size - 1)
  {
    hide Nth, Collected, Items, PieceAt, Complete;
    NextAlone(d, start, size, k, g);
  }

  /** From such a page with a tied boundary ahead, some run does not show all. */
  lemma {:induction false} TiedBoundaryFails(d: seq<Entry>, start: int, size: nat, k: nat, g: nat)
    returns (pages: nat -> Page)
    requires Complete(d) && StartsAbove(d, start) && Arrived(d, start, size, k, g)
    requires size > 1 && g < |d| - 1 && !ClearFrom(d, g, size)
    ensures IsRun(d, start, size, pages) && forall n: nat :: !ShowsAllBy(d, pages, n)
    decreases |d| - g
  {
    hide Arrived, Reached, Complete, IsRun, ShowsAllBy, Alone;
    ArrivedIsReached(d, start, size, k, g);
    if Alone(d, g + size - 1) {
      ArrivesNext(d, start, size, k, g);
      pages := TiedBoundaryFails(d, start, size, k + 1, g + size - 1);
    } else {
      NotAlone(d, g + size - 1);
      pages := FailsHere(d, start, size, k, g);
    }
  }

  lemma FailsHere(d: seq<Entry>, start: int, size: nat, k: nat, g: nat) returns (pages: nat -> Page)
    requires Complete(d) && StartsAbove(d, start) && Reached(d, start, size, k, g)
    requires size > 1 && g + size < |d|
    requires var e := g + size - 1;
      && d[e - 1].score >= d[e].score >= d[e + 1].score && !Alone(d, e)
      && (d[e].score > 0 && d[e].score == d[e + 1].score ==> e + 1 < |d| - 1)
    ensures IsRun(d, start, size, pages) && forall n: nat :: !ShowsAllBy(d, pages, n)
  {
    hide Reached, IsRun, ShowsAllBy, Sorted;
    var e := g + size - 1;
    if d[e].score == 0 {
      pages := FailsAtZero(d, start, size, k, g);
    } else if d[e - 1].score == d[e].score {
      pages := FailsAbove(d, start, size, k, g);
    } else {
      pages := FailsBelow(d, start, size, k, g);
    }
  }

  lemma NotAlone(d: seq<Entry>, e: nat)
    requires Complete(d) && 0 < e < |d| - 1 && !Alone(d, e)
    ensures d[e - 1].score >= d[e].score >= d[e + 1].score
    ensures d[e].score > 0 && d[e].score == d[e + 1].score ==> e + 1 < |d| - 1
  {
    hide Ordered, Distinct;
    FansPaging.ScoresDescend(d, e - 1, e);
    FansPaging.ScoresDescend(d, e, e + 1);
  }

  /** Two multiples of m are m or more apart. */
  lemma {:induction false} MeetsApart(a: nat, b: nat, m: nat)
    requires m > 0 && a < b && Meets(a, m) && Meets(b, m)
    ensures b >= a + m
  {
    if a > 0 {
      MeetsApart(a - m, b - m, m);
    }
  }

  /** Every page boundary, at rank size - 1 and its multiples, is alone. */
  ghost predicate Clear(d: seq<Entry>, size: nat)
    requires size > 1
  {
    forall e :: 0 < e < |d| - 1 && e % (size - 1) == 0 ==> Alone(d, e)
  }

  lemma {:induction false} ClearFromMeans(d: seq<Entry>, g: nat, size: nat)
    requires size > 1 && g < |d| - 1 && Meets(g, size - 1)
    ensures ClearFrom(d, g, size) <==> forall e :: g < e < |d| - 1 && Meets(e, size - 1) ==> Alone(d, e)
    decreases |d| - g
  {
    var m := size - 1;
    forall e | g < e < |d| - 1 && Meets(e, m)
      ensures e >= g + m
    {
      MeetsApart(g, e, m);
    }
    if g + size < |d| {
      assert Meets(g + m, m);
      ClearFromMeans(d, g + m, size);
    }
  }

  lemma ClearIff(d: seq<Entry>, size: nat)
    requires size > 1 && |d| >= 2
    ensures ClearFrom(d, 0, size) <==> Clear(d, size)
  {
    ClearFromMeans(d, 0, size);
    var m := size - 1;
    forall e | 0 < e < |d| - 1
      ensures Meets(e, m) <==> e % m == 0
    {
      MeetsIff(e, m);
    }
  }

  ghost predicate ShowsAll(d: seq<Entry>, pages: nat -> Page)
    requires d != []
  {
    exists n: nat :: ShowsAllBy(d, pages, n)
  }

  /**
   Whatever the order in which rows arrive, the client sees every article once and then isEnd,
   exactly for the lists without an article, and those where pages hold more than one article and
   no article at a page boundary shares its score with a neighbour, the sentinel included.
   */
  lemma EveryOrderShowsAllIff(d: seq<Entry>, start: int, size: nat)
    requires Complete(d) && StartsAbove(d, start) && size > 0
    ensures (forall pages: nat -> Page :: IsRun(d, start, size, pages) ==> ShowsAll(d, pages)) <==>
      |d| == 1 || (size > 1 && Clear(d, size))
  {
    hide IsRun, ShowsAllBy, Clear, Sorted;
    if |d| == 1 || (size > 1 && Clear(d, size)) {
      forall pages: nat -> Page | IsRun(d, start, size, pages)
        ensures ShowsAll(d, pages)
      {
        var n := ClearRun(d, start, size, pages);
      }
    } else {
      var pages := BadRun(d, start, size);
      assert !ShowsAll(d, pages);
    }
  }

  lemma ClearRun(d: seq<Entry>, start: int, size: nat, pages: nat -> Page) returns (n: nat)
    requires Complete(d) && StartsAbove(d, start) && size > 0 && IsRun(d, start, size, pages)
    requires |d| == 1 || (size > 1 && Clear(d, size))
    ensures ShowsAllBy(d, pages, n)
  {
    hide Clear, Sorted, Answers, Follows;
    if |d| == 1 {
      n := 0;
      NothingToShow(d, start, size, pages(0));
    } else {
      ClearIff(d, size);
      StartsOnTrack(d, start, size, pages(0));
      n := ClearShowsAll(d, start, size, pages, 0, 0);
    }
  }

  lemma NothingToShow(d: seq<Entry>, start: int, size: nat, page: Page)
    requires Complete(d) && |d| == 1 && start > 0 && size > 0 && Answers(d, start, 0, size, page)
    ensures page.items == [] && page.isEnd
  {
    assert d == [Entry(0, SENTINEL)];
    FansPaging.FromIs(d, start, 0);
    FansPaging.Fetched(d, start, size);
    assert Range(d, start, size) == d && ItemsOf(d) == [];
    var s :| IsSorting([], s) && page == Finish(s, start, 0, true);
    assert |s| == |multiset(s)| == 0;
  }

  lemma BadRun(d: seq<Entry>, start: int, size: nat) returns (pages: nat -> Page)
    requires Complete(d) && StartsAbove(d, start) && size > 0 && |d| >= 2 && !(size > 1 && Clear(d, size))
    ensures IsRun(d, start, size, pages) && forall n: nat :: !ShowsAllBy(d, pages, n)
  {
    hide IsRun, ShowsAllBy, Nth, Collected, Items, Sorted;
    if size == 1 {
      pages := ListRun(d, start, 1, 0);
      assert !Uncrowded(d, 1) by {
        assert 0 + 1 < |d| && d[0].score == d[0 + 1 - 1].score;
      }
      EveryOrderEndsIff(d, start, 1, pages);
      forall n: nat
        ensures !ShowsAllBy(d, pages, n)
      {
        NotBeforeEnd(d, pages, n);
      }
    } else {
      hide Clear;
      ClearIff(d, size);
      FirstPiece(d, start, size);
      FirstCollected(d, start, size);
      pages := TiedBoundaryFails(d, start, size, 0, 0);
    }
  }

  lemma NotBeforeEnd(d: seq<Entry>, pages: nat -> Page, n: nat)
    requires d != [] && !pages(n).isEnd
    ensures !ShowsAllBy(d, pages, n)
  {
  }

  lemma FirstCollected(d: seq<Entry>, start: int, size: nat)
    requires size > 0 && |d| >= 2 && Nth(d, start, size, 0) == PieceAt(d, 0, size)
    ensures Collected(d, start, size, 0) == Items(d[..LastFrom(d, 0, size) + 1])
  {
    hide Nth;
    assert d[0..LastFrom(d, 0, size) + 1] == d[..LastFrom(d, 0, size) + 1];
  }
}
