/**
 A client that pages through a cached article list: it starts with Cursor 0, which stands for the
 start cursor, and feeds each response's (Cursor, ArticleId) back until isEnd.
 */
module ArticlePaging {
  import opened Decimal
  import opened SortedSets
  import opened RedisStore
  import opened ArticlePage
  import FansPaging

  /** The possible responses: the fetched rows come out in some order of their sort keys. */
  ghost predicate Answers(d: seq<Entry>, cursor: int, articleId: int, size: nat, page: Page) {
    var fetched := Range(d, cursor, size);
    exists s :: IsSorting(ItemsOf(fetched), s) && page == Finish(s, cursor, articleId, EndsList(fetched))
  }

  /** The response whose rows stand in list order. */
  function Response(d: seq<Entry>, cursor: int, articleId: int, size: nat): Page {
    var fetched := Range(d, cursor, size);
    Finish(ItemsOf(fetched), cursor, articleId, EndsList(fetched))
  }

  /** The k-th response, and all the articles so far without the repeated first one of each later response. */
  function Nth(d: seq<Entry>, start: int, size: nat, k: nat): Page {
    if k == 0 then Response(d, start, 0, size)
    else
      var previous := Nth(d, start, size, k - 1);
      Response(d, if previous.cursor == 0 then start else previous.cursor, previous.articleId, size)
  }

  function Collected(d: seq<Entry>, start: int, size: nat, k: nat): seq<Item> {
    if k == 0 then Nth(d, start, size, 0).items
    else
      var more := Nth(d, start, size, k).items;
      Collected(d, start, size, k - 1) + if more == [] then [] else more[1..]
  }

  /** A list of articles above its sentinel. */
  ghost predicate Complete(d: seq<Entry>) {
    && Sorted(d) && d != [] && d[|d| - 1] == Entry(0, SENTINEL)
    && forall i :: 0 <= i < |d| - 1 ==> d[i].member > 0 && d[i].score >= 0
  }

  /** One in which no two articles share a score. */
  ghost predicate Untied(d: seq<Entry>) {
    && Complete(d)
    && (forall i, j :: 0 <= i < j < |d| - 1 ==> d[i].score > d[j].score)
  }

  ghost predicate StartsAbove(d: seq<Entry>, start: int) {
    start > 0 && forall i :: 0 <= i < |d| ==> d[i].score <= start
  }

  function Items(kept: seq<Entry>): (items: seq<Item>)
    ensures |items| == |kept|
  {
    seq(|kept|, i requires 0 <= i < |kept| => Item(kept[i].member, kept[i].score))
  }

  /** The last article of the page that starts with rank g, and how many articles a list has. */
  function LastFrom(d: seq<Entry>, g: nat, size: nat): nat
    requires g < |d| - 1 && size > 0
  {
    if g + size >= |d| then |d| - 2 else g + size - 1
  }

  lemma FetchedItems(d: seq<Entry>, cursor: int, size: nat)
    requires Complete(d) && size > 0 && From(d, cursor) < |d| - 1
    ensures var g := From(d, cursor);
      && ItemsOf(Range(d, cursor, size)) == Items(d[g..LastFrom(d, g, size) + 1])
      && EndsList(Range(d, cursor, size)) == (g + size >= |d|)
  {
    hide From, Range, Sorted, ItemsOf, EndsList, Items;
    FansPaging.Fetched(d, cursor, size);
    PieceItems(d, From(d, cursor), size);
  }

  lemma PieceItems(d: seq<Entry>, g: nat, size: nat)
    requires Complete(d) && size > 0 && g < |d| - 1
    ensures var piece := d[g..Min(g + size, |d|)];
      ItemsOf(piece) == Items(d[g..LastFrom(d, g, size) + 1]) && EndsList(piece) == (g + size >= |d|)
  {
    hide Sorted;
    var piece := d[g..Min(g + size, |d|)];
    assert piece[|piece| - 1] == d[g + |piece| - 1];
    if g + size >= |d| {
      assert piece[..|piece| - 1] == d[g..|d| - 1];
    }
  }

  /** A request that finds the boundary item first, or not at all, gets the whole piece. */
  lemma PageFrom(d: seq<Entry>, g: nat, cursor: int, articleId: int, size: nat)
    requires Complete(d) && size > 0 && g < |d| - 1 && From(d, cursor) == g
    requires forall i :: g < i < |d| - 1 ==> d[i] != Entry(cursor, articleId)
    ensures var last := LastFrom(d, g, size);
      Response(d, cursor, articleId, size) ==
        Page(Items(d[g..last + 1]), d[last].score, d[last].member, g + size >= |d|)
  {
    hide From, Sorted, Range, ItemsOf, EndsList, Items, Finish;
    FetchedItems(d, cursor, size);
    var last := LastFrom(d, g, size);
    var items := Items(d[g..last + 1]);
    ItemsAt(d, g, last);
    WholePage(items, cursor, articleId, g + size >= |d|);
  }

  lemma ItemsAt(d: seq<Entry>, g: nat, last: nat)
    requires g <= last < |d|
    ensures var items := Items(d[g..last + 1]);
      |items| == last + 1 - g && forall i :: 0 <= i < |items| ==> items[i] == Item(d[g + i].member, d[g + i].score)
  {
  }

  lemma WholePage(items: seq<Item>, cursor: int, articleId: int, isEnd: bool)
    requires items != [] && items[|items| - 1].key >= 0
    requires forall i :: 0 < i < |items| ==> items[i] != Item(articleId, cursor)
    ensures Finish(items, cursor, articleId, isEnd) == Page(items, items[|items| - 1].key, items[|items| - 1].id, isEnd)
  {
    assert items[0..] == items;
  }

  lemma FromRank(d: seq<Entry>, g: nat)
    requires Untied(d) && g < |d| - 1
    ensures From(d, d[g].score) == g
  {
    FansPaging.FromIs(d, d[g].score, g);
  }

  /** The response that starts with rank g. */
  function PieceAt(d: seq<Entry>, g: nat, size: nat): Page
    requires g < |d| - 1 && size > 0
  {
    var last := LastFrom(d, g, size);
    Page(Items(d[g..last + 1]), d[last].score, d[last].member, g + size >= |d|)
  }

  lemma FirstPiece(d: seq<Entry>, start: int, size: nat)
    requires Complete(d) && StartsAbove(d, start) && size > 0 && |d| >= 2
    ensures Nth(d, start, size, 0) == PieceAt(d, 0, size)
  {
    hide Sorted, Response, Items;
    FansPaging.FromIs(d, start, 0);
    PageFrom(d, 0, start, 0, size);
  }

  lemma NextQuery(d: seq<Entry>, start: int, size: nat, k: nat)
    ensures var previous := Nth(d, start, size, k);
      Nth(d, start, size, k + 1) ==
        Response(d, if previous.cursor == 0 then start else previous.cursor, previous.articleId, size)
  {
    hide Response;
  }

  lemma NextCollected(d: seq<Entry>, start: int, size: nat, k: nat)
    ensures var more := Nth(d, start, size, k + 1).items;
      Collected(d, start, size, k + 1) == Collected(d, start, size, k) + if more == [] then [] else more[1..]
  {
    hide Nth;
  }

  lemma PieceOn(d: seq<Entry>, size: nat, g: nat)
    requires Untied(d) && size > 0 && g < |d| - 1
    ensures Response(d, d[g].score, d[g].member, size) == PieceAt(d, g, size)
  {
    hide Sorted, Response, Items, Range, From;
    FromRank(d, g);
    PageFrom(d, g, d[g].score, d[g].member, size);
  }

  lemma PieceAgain(d: seq<Entry>, start: int, size: nat, last: nat)
    requires Complete(d) && StartsAbove(d, start) && size > 0 && last < |d| - 1 && d[last].score == 0
    ensures Response(d, start, d[last].member, size) == PieceAt(d, 0, size)
  {
    hide Ordered, Distinct, Response, Items, Range, From;
    FansPaging.FromIs(d, start, 0);
    LastIsElsewhere(d, start, last);
    PageFrom(d, 0, start, d[last].member, size);
  }

  lemma LastIsElsewhere(d: seq<Entry>, start: int, last: nat)
    requires Distinct(d) && last < |d| && d[last].score == 0 && start > 0
    ensures forall i :: 0 < i < |d| - 1 ==> d[i] != Entry(start, d[last].member)
  {
    forall i | 0 < i < |d| - 1
      ensures d[i] != Entry(start, d[last].member)
    {
      assert i != last ==> d[i].member != d[last].member;
    }
  }

  /** The next response starts where this one ended, or at the top again if that article has score 0. */
  lemma NextPiece(d: seq<Entry>, start: int, size: nat, k: nat, g: nat)
    requires Untied(d) && StartsAbove(d, start) && size > 0 && g < |d| - 1
    requires Nth(d, start, size, k) == PieceAt(d, g, size)
    ensures var last := LastFrom(d, g, size);
      Nth(d, start, size, k + 1) == PieceAt(d, if d[last].score == 0 then 0 else last, size)
  {
    hide Sorted, Response, Items, Nth;
    var last := LastFrom(d, g, size);
    NextQuery(d, start, size, k);
    if d[last].score == 0 {
      PieceAgain(d, start, size, last);
    } else {
      PieceOn(d, size, last);
    }
  }

  /** Steps of m from here meet the end of the gap. */
  predicate Meets(gap: nat, m: nat)
    requires m > 0
  {
    gap == 0 || (gap >= m && Meets(gap - m, m))
  }

  lemma {:induction false} MeetsIff(gap: nat, m: nat)
    requires m > 0
    ensures Meets(gap, m) <==> gap % m == 0
  {
    if gap >= m {
      MeetsIff(gap - m, m);
      var q, r := (gap - m) / m, (gap - m) % m;
      assert gap == m * (q + 1) + r;
      SameRemainder(gap / m, gap % m, q + 1, r, m);
    }
  }

  lemma SameRemainder(q1: int, r1: nat, q2: int, r2: nat, m: nat)
    requires m * q1 + r1 == m * q2 + r2 && r1 < m && r2 < m
    ensures r1 == r2
  {
    if q1 > q2 {
      TimesGrows(m, q2 + 1, q1);
    } else if q1 < q2 {
      TimesGrows(m, q1 + 1, q2);
    }
  }

  lemma {:induction false} TimesGrows(m: nat, a: int, b: int)
    requires a <= b
    ensures m * a <= m * b
    decreases b - a
  {
    if a < b {
      TimesGrows(m, a, b - 1);
    }
  }

  /** Pages of one article do not move on, and a boundary of score 0 sends the client back to the top. */
  ghost predicate Stuck(d: seq<Entry>, size: nat) {
    && |d| >= 2 && size > 0
    && (size == 1 || (|d| > 2 && d[|d| - 2].score == 0 && (|d| - 2) % (size - 1) == 0))
  }

  /** The boundaries from rank g on miss the last article, or that has a score above 0. */
  ghost predicate Free(d: seq<Entry>, g: nat, size: nat) {
    && size > 1 && g < |d| - 1
    && (d[|d| - 2].score == 0 && g < |d| - 2 ==> !Meets(|d| - 2 - g, size - 1))
  }

  /** From a response that starts with rank g, a client that is not sent back gets the rest and isEnd. */
  lemma {:induction false} Finishes(d: seq<Entry>, start: int, size: nat, k: nat, g: nat) returns (n: nat)
    requires Untied(d) && StartsAbove(d, start) && Free(d, g, size)
    requires Nth(d, start, size, k) == PieceAt(d, g, size)
    requires Collected(d, start, size, k) == Items(d[..LastFrom(d, g, size) + 1])
    ensures n >= k && Nth(d, start, size, n).isEnd && Collected(d, start, size, n) == Items(d[..|d| - 1])
    ensures forall j :: k <= j < n ==> !Nth(d, start, size, j).isEnd
    decreases |d| - g
  {
    hide Nth, Collected, Untied, Items, Meets;
    if g + size >= |d| {
      n := k;
    } else {
      var last := LastFrom(d, g, size);
      NextPiece(d, start, size, k, g);
      NextCollected(d, start, size, k);
      StaysFree(d, g, size);
      var next := LastFrom(d, last, size);
      JoinPieces(d, last, next);
      n := Finishes(d, start, size, k + 1, last);
    }
  }

  lemma StaysFree(d: seq<Entry>, g: nat, size: nat)
    requires Untied(d) && Free(d, g, size) && g + size < |d|
    ensures var last := LastFrom(d, g, size); d[last].score > 0 && Free(d, last, size)
  {
    hide Sorted;
    var last := LastFrom(d, g, size);
    assert last < |d| - 2 ==> d[last].score > d[|d| - 2].score;
    assert last == |d| - 2 ==> Meets(0, size - 1) && Meets(|d| - 2 - g, size - 1);
  }

  lemma JoinPieces(d: seq<Entry>, p: nat, last: nat)
    requires p <= last < |d|
    ensures Items(d[..p + 1]) + Items(d[p..last + 1])[1..] == Items(d[..last + 1])
  {
    assert Items(d[p..last + 1])[1..] == Items(d[p + 1..last + 1]);
    assert d[..last + 1] == d[..p + 1] + d[p + 1..last + 1];
  }

  /** Without ties, feeding (Cursor, ArticleId) back lists every article once, in order, and then says isEnd. */
  lemma PagingListsEveryArticle(d: seq<Entry>, start: int, size: nat) returns (n: nat)
    requires Untied(d) && StartsAbove(d, start) && size > 0 && !Stuck(d, size)
    ensures Nth(d, start, size, n).isEnd && forall j :: 0 <= j < n ==> !Nth(d, start, size, j).isEnd
    ensures Collected(d, start, size, n) == Items(d[..|d| - 1])
  {
    hide Sorted;
    if |d| == 1 {
      n := 0;
      OnlySentinel(d, start, size);
    } else {
      hide Nth;
      FirstPiece(d, start, size);
      MeetsIff(|d| - 2, size - 1);
      n := Finishes(d, start, size, 0, 0);
    }
  }

  lemma OnlySentinel(d: seq<Entry>, start: int, size: nat)
    requires d == [Entry(0, SENTINEL)] && start > 0 && size > 0
    ensures Response(d, start, 0, size) == Page([], 0, 0, true)
  {
    FansPaging.FromIs(d, start, 0);
    FansPaging.Fetched(d, start, size);
    assert Range(d, start, size) == d;
  }

  /** Otherwise every response comes from above the last article and isEnd never comes. */
  lemma {:induction false} StuckNeverEnds(d: seq<Entry>, start: int, size: nat, k: nat) returns (g: nat)
    requires Untied(d) && StartsAbove(d, start) && Stuck(d, size)
    ensures Caught(d, g, size) && Nth(d, start, size, k) == PieceAt(d, g, size) && !Nth(d, start, size, k).isEnd
  {
    hide Nth, Complete, Caught, Stuck, Items;
    CaughtAtTop(d, size);
    if k == 0 {
      FirstPiece(d, start, size);
      g := 0;
    } else {
      var before := StuckNeverEnds(d, start, size, k - 1);
      NextPiece(d, start, size, k - 1, before);
      CaughtAgain(d, before, size);
      var last := LastFrom(d, before, size);
      g := if d[last].score == 0 then 0 else last;
    }
    NoEndInside(d, g, size);
  }

  /** The boundaries from rank g on meet the last article, or pages hold one article. */
  ghost predicate Caught(d: seq<Entry>, g: nat, size: nat) {
    && size > 0 && g < |d| - 1
    && if size == 1 then g == 0 else g < |d| - 2 && Meets(|d| - 2 - g, size - 1)
  }

  lemma CaughtAtTop(d: seq<Entry>, size: nat)
    requires Stuck(d, size)
    ensures Caught(d, 0, size)
  {
    if size > 1 {
      MeetsIff(|d| - 2, size - 1);
    }
  }

  lemma NoEndInside(d: seq<Entry>, g: nat, size: nat)
    requires Caught(d, g, size)
    ensures !PieceAt(d, g, size).isEnd && LastFrom(d, g, size) == g + size - 1
  {
  }

  lemma CaughtAgain(d: seq<Entry>, g: nat, size: nat)
    requires Untied(d) && Stuck(d, size) && Caught(d, g, size)
    ensures var last := LastFrom(d, g, size); Caught(d, if d[last].score == 0 then 0 else last, size)
  {
    hide Sorted;
    NoEndInside(d, g, size);
    CaughtAtTop(d, size);
  }

  /**
   A client that pages through an untied list ever sees isEnd exactly when pages hold more than one
   article and no page but the last one ends with an article of score 0. The like count 0 reads as
   no cursor at all.
   */
  lemma PagingEndsIff(d: seq<Entry>, start: int, size: nat)
    requires Untied(d) && StartsAbove(d, start) && size > 0
    ensures (exists k: nat :: Nth(d, start, size, k).isEnd) <==> !Stuck(d, size)
  {
    hide Nth, Untied;
    if Stuck(d, size) {
      forall k: nat
        ensures !Nth(d, start, size, k).isEnd
      {
        var g := StuckNeverEnds(d, start, size, k);
      }
    } else {
      var n := PagingListsEveryArticle(d, start, size);
    }
  }

  // ---- Ties ----

  lemma PiecesSorted(d: seq<Entry>, g: nat, stop: nat)
    requires Untied(d) && g <= stop < |d|
    ensures Descending(Items(d[g..stop])) && KeysDiffer(multiset(Items(d[g..stop])))
  {
    hide Sorted;
    var items := Items(d[g..stop]);
    assert forall i :: 0 <= i < |items| ==> items[i] == Item(d[g + i].member, d[g + i].score);
    assert forall i, j :: 0 <= i < j < |items| ==> items[i].key > items[j].key;
  }

  lemma FetchedSorted(d: seq<Entry>, cursor: int, size: nat)
    requires Untied(d) && size > 0
    ensures var items := ItemsOf(Range(d, cursor, size)); Descending(items) && KeysDiffer(multiset(items))
  {
    hide Descending, KeysDiffer, Sorted, Range, ItemsOf, From;
    if From(d, cursor) < |d| - 1 {
      FetchedItems(d, cursor, size);
      PiecesSorted(d, From(d, cursor), LastFrom(d, From(d, cursor), size) + 1);
    } else {
      LastFetched(d, cursor, size);
      PiecesSorted(d, 0, 0);
    }
  }

  lemma LastFetched(d: seq<Entry>, cursor: int, size: nat)
    requires Complete(d) && size > 0 && From(d, cursor) >= |d| - 1
    ensures ItemsOf(Range(d, cursor, size)) == Items(d[0..0])
  {
    hide Sorted, From;
    FansPaging.Fetched(d, cursor, size);
  }

  /** Without ties the rows can only come out in list order, so a page is that response. */
  lemma UntiedAnswer(d: seq<Entry>, cursor: int, articleId: int, size: nat, page: Page)
    requires Untied(d) && size > 0
    ensures Answers(d, cursor, articleId, size, page) <==> page == Response(d, cursor, articleId, size)
  {
    hide Descending, KeysDiffer, Untied, Range, ItemsOf, Finish;
    var fetched := Range(d, cursor, size);
    var items := ItemsOf(fetched);
    FetchedSorted(d, cursor, size);
    assert IsSorting(items, items);
    if Answers(d, cursor, articleId, size, page) {
      var s :| IsSorting(items, s) && page == Finish(s, cursor, articleId, EndsList(fetched));
      SortingIsUnique(s, items);
    }
  }

  /** Five articles, two of which share the like count 5. */
  const TIED: seq<Entry> :=
    [Entry(7, 4), Entry(6, 3), Entry(5, 2), Entry(5, 1), Entry(4, 5), Entry(0, SENTINEL)]

  lemma TiedIsListing()
    ensures Sorted(TIED)
  {
    assert FormatInt(1) == "1" && FormatInt(2) == "2";
    DescendingIsSorted(TIED);
  }

  lemma ThreeDescend(a: Item, b: Item, c: Item)
    requires a.key >= b.key >= c.key
    ensures Descending([a, b, c])
  {
  }

  lemma TiedFetch(cursor: int, g: nat)
    requires g < |TIED| && (forall i :: 0 <= i < g ==> TIED[i].score > cursor) && TIED[g].score <= cursor
    ensures Range(TIED, cursor, 3) == TIED[g..Min(g + 3, 6)]
  {
    FansPaging.FromIs(TIED, cursor, g);
    FansPaging.Fetched(TIED, cursor, 3);
  }

  /**
   With ties, an article can be skipped: in pages of three, the rows of the second fetch may come out
   with article 1 above the boundary article 2, and the page starts at that.
   */
  lemma TiedArticleIsSkipped(start: int) returns (p0: Page, p1: Page, p2: Page)
    requires start >= 7
    ensures Sorted(TIED)
    ensures Answers(TIED, start, 0, 3, p0) && Answers(TIED, p0.cursor, p0.articleId, 3, p1)
    ensures Answers(TIED, p1.cursor, p1.articleId, 3, p2)
    ensures p0.cursor > 0 && p1.cursor > 0 && !p0.isEnd && !p1.isEnd && p2.isEnd
    ensures forall item :: item in p0.items + p1.items + p2.items ==> item.id != 1
  {
    hide Answers, Sorted;
    TiedIsListing();
    p0 := FirstTied(start);
    p1 := SecondTied();
    p2 := ThirdTied();
  }

  lemma TiedPieces()
    ensures ItemsOf(TIED[0..3]) == [Item(4, 7), Item(3, 6), Item(2, 5)] && !EndsList(TIED[0..3])
    ensures ItemsOf(TIED[2..5]) == [Item(2, 5), Item(1, 5), Item(5, 4)] && !EndsList(TIED[2..5])
    ensures ItemsOf(TIED[4..6]) == [Item(5, 4)] && EndsList(TIED[4..6])
  {
  }

  lemma FirstTied(start: int) returns (p: Page)
    requires start >= 7
    ensures p == Page([Item(4, 7), Item(3, 6), Item(2, 5)], 5, 2, false) && Answers(TIED, start, 0, 3, p)
  {
    TiedFetch(start, 0);
    TiedPieces();
    hide Range, Finish, ItemsOf, EndsList, Descending;
    var s := [Item(4, 7), Item(3, 6), Item(2, 5)];
    p := Finish(s, start, 0, false);
    FinishFrom(s, 0, start, 0, false);
    ThreeDescend(s[0], s[1], s[2]);
    assert IsSorting(s, s);
  }

  lemma SecondTied() returns (p: Page)
    ensures p == Page([Item(2, 5), Item(5, 4)], 4, 5, false) && Answers(TIED, 5, 2, 3, p)
  {
    TiedFetch(5, 2);
    TiedPieces();
    hide Range, Finish, ItemsOf, EndsList, Descending;
    var rows, s := [Item(2, 5), Item(1, 5), Item(5, 4)], [Item(1, 5), Item(2, 5), Item(5, 4)];
    ThreeDescend(rows[0], rows[1], rows[2]);
    var swapped := SwapTie(rows, 0, 1);
    assert swapped == s;
    p := Finish(s, 5, 2, false);
    FinishFrom(s, 1, 5, 2, false);
    assert s[1..] == [Item(2, 5), Item(5, 4)];
  }

  lemma ThirdTied() returns (p: Page)
    ensures p == Page([Item(5, 4)], 4, 5, true) && Answers(TIED, 4, 5, 3, p)
  {
    TiedFetch(4, 4);
    TiedPieces();
    hide Range, Finish, ItemsOf, EndsList;
    var s := [Item(5, 4)];
    assert IsSorting(s, s);
    p := Finish(s, 4, 5, true);
    FinishFrom(s, 0, 4, 5, true);
  }

  lemma FinishFrom(s: seq<Item>, r: nat, cursor: int, articleId: int, isEnd: bool)
    requires r < |s| && s[|s| - 1].key >= 0 && (r > 0 ==> s[r] == Item(articleId, cursor))
    requires forall i :: 0 <= i < |s| && i != r ==> s[i] != Item(articleId, cursor)
    ensures Finish(s, cursor, articleId, isEnd) == Page(s[r..], s[|s| - 1].key, s[|s| - 1].id, isEnd)
  {
    assert s[0..] == s;
  }

  /** Two articles, the second one without a like. */
  const UNLIKED: seq<Entry> := [Entry(3, 1), Entry(0, 2), Entry(0, SENTINEL)]

  /** In pages of two the first page ends with Cursor 0, which asks for the first page again. */
  lemma UnlikedNeverEnds(start: int, k: nat)
    requires start >= 3
    ensures Untied(UNLIKED) && !Nth(UNLIKED, start, 2, k).isEnd
  {
    hide Nth;
    SentinelTextIsLowest(2);
    DescendingIsSorted(UNLIKED);
    var g := StuckNeverEnds(UNLIKED, start, 2, k);
  }
}
