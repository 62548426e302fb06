/**
 Paging through an article list in which articles may share a score. The rows of a fetch come out in
 any order of their sort keys, so a client sees one of many runs.
 */
module ArticleTies {
  import opened SortedSets
  import opened RedisStore
  import opened ArticlePage
  import opened ArticlePaging
  import FansPaging

  /** What a client may see: responses one after another, each fetched rows in some order of their keys. */
  ghost predicate IsRun(d: seq<Entry>, start: int, size: nat, pages: nat -> Page) {
    && Answers(d, start, 0, size, pages(0))
    && forall k: nat :: Follows(d, start, size, pages(k), pages(k + 1))
  }

  ghost predicate Follows(d: seq<Entry>, start: int, size: nat, page: Page, next: Page) {
    Answers(d, FansPaging.StartOf(page.cursor, start), page.articleId, size, next)
  }

  /** All the articles so far without the first one of each later response. */
  function Seen(pages: nat -> Page, k: nat): seq<Item> {
    if k == 0 then pages(0).items
    else Seen(pages, k - 1) + if pages(k).items == [] then [] else pages(k).items[1..]
  }

  // ---- Cursors do not depend on the order ----

  lemma FetchDescends(d: seq<Entry>, cursor: int, size: nat)
    requires Complete(d) && size > 0
    ensures Descending(ItemsOf(Range(d, cursor, size)))
  {
    hide Descending, Sorted, Range, ItemsOf, From, Items;
    if From(d, cursor) < |d| - 1 {
      FetchedItems(d, cursor, size);
      PieceDescends(d, From(d, cursor), LastFrom(d, From(d, cursor), size) + 1);
    } else {
      LastFetched(d, cursor, size);
      PieceDescends(d, 0, 0);
    }
  }

  lemma PieceDescends(d: seq<Entry>, g: nat, stop: nat)
    requires Sorted(d) && g <= stop <= |d|
    ensures Descending(Items(d[g..stop]))
  {
    hide Ordered, Distinct;
    var items := Items(d[g..stop]);
    forall i, j | 0 <= i < j < |items|
      ensures items[i].key >= items[j].key
    {
      FansPaging.ScoresDescend(d, g + i, g + j);
    }
  }

  /** Whatever the order, the lowest key comes last and the highest first. */
  lemma EndsAgree(rows: seq<Item>, s: seq<Item>)
    requires IsSorting(rows, s) && Descending(rows)
    ensures |s| == |rows|
    ensures rows != [] ==> s[|s| - 1].key == rows[|rows| - 1].key && s[0].key == rows[0].key
  {
    assert |s| == |multiset(s)| == |multiset(rows)| == |rows|;
    if rows != [] {
      var n := |rows| - 1;
      assert rows[n] in multiset(s) && s[n] in multiset(rows) && rows[0] in multiset(s) && s[0] in multiset(rows);
      var i :| 0 <= i < |s| && s[i] == rows[n];
      var j :| 0 <= j < |rows| && rows[j] == s[n];
      HeadIsHighest(s, rows[0]);
      HeadIsHighest(rows, s[0]);
    }
  }

  /** Cursor and isEnd of a response depend on the cursor asked for alone. */
  lemma AnswerCursor(d: seq<Entry>, cursor: int, articleId: int, other: int, size: nat, page: Page)
    requires Complete(d) && size > 0 && Answers(d, cursor, articleId, size, page)
    ensures page.cursor == Response(d, cursor, other, size).cursor
    ensures page.isEnd == Response(d, cursor, other, size).isEnd
  {
    hide Range, ItemsOf, Descending, BoundaryIn, Complete;
    var fetched := Range(d, cursor, size);
    var s :| IsSorting(ItemsOf(fetched), s) && page == Finish(s, cursor, articleId, EndsList(fetched));
    FetchDescends(d, cursor, size);
    EndsAgree(ItemsOf(fetched), s);
  }

  /** In every order of arrival the client gets the same cursors and the same isEnd. */
  lemma {:induction false} EveryOrderSameCursors(d: seq<Entry>, start: int, size: nat, pages: nat -> Page, k: nat)
    requires Complete(d) && size > 0 && IsRun(d, start, size, pages)
    ensures pages(k).cursor == Nth(d, start, size, k).cursor
    ensures pages(k).isEnd == Nth(d, start, size, k).isEnd
  {
    hide Answers, Response, Complete;
    if k == 0 {
      AnswerCursor(d, start, 0, 0, size, pages(0));
    } else {
      EveryOrderSameCursors(d, start, size, pages, k - 1);
      var cursor := FansPaging.StartOf(pages(k - 1).cursor, start);
      assert Follows(d, start, size, pages(k - 1), pages(k - 1 + 1));
      AnswerCursor(d, cursor, pages(k - 1).articleId, Nth(d, start, size, k - 1).articleId, size, pages(k));
    }
  }

  // ---- When isEnd comes ----

  /** The rank where the page after one that starts with rank g starts, if that has a cursor. */
  function NextRank(d: seq<Entry>, g: nat, size: nat): nat
    requires size > 0 && g + size < |d|
  {
    From(d, d[g + size - 1].score)
  }

  /** Some page from rank g on that is not the last one ends with score 0. */
  predicate LandsOnZero(d: seq<Entry>, g: nat, size: nat)
    requires size > 0
    decreases |d| - g
  {
    && g + size < |d|
    && (d[g + size - 1].score == 0 || (NextRank(d, g, size) > g && LandsOnZero(d, NextRank(d, g, size), size)))
  }

  /** No score is shared by size or more articles. */
  ghost predicate Uncrowded(d: seq<Entry>, size: nat) {
    forall i :: 0 <= i && i + size < |d| && 0 < size ==> d[i].score > d[i + size - 1].score
  }

  /** The response in list order started with rank g. */
  ghost predicate AtRank(d: seq<Entry>, size: nat, page: Page, g: nat) {
    && size > 0 && g < |d| - 1
    && page.cursor == d[LastFrom(d, g, size)].score
    && page.isEnd == (g + size >= |d|)
  }

  lemma ResponseAtRank(d: seq<Entry>, cursor: int, articleId: int, size: nat)
    requires Complete(d) && size > 0 && From(d, cursor) < |d| - 1
    ensures AtRank(d, size, Response(d, cursor, articleId, size), From(d, cursor))
  {
    hide From, Sorted, Range, ItemsOf, EndsList, BoundaryIn, Items;
    var g := From(d, cursor);
    FetchedItems(d, cursor, size);
    ItemsAt(d, g, LastFrom(d, g, size));
  }

  lemma FirstRank(d: seq<Entry>, start: int, size: nat)
    requires Complete(d) && StartsAbove(d, start) && size > 0 && |d| >= 2
    ensures AtRank(d, size, Nth(d, start, size, 0), 0)
  {
    hide From, Sorted, Response;
    FansPaging.FromIs(d, start, 0);
    ResponseAtRank(d, start, 0, size);
  }

  lemma RankAfter(d: seq<Entry>, start: int, size: nat, k: nat, g: nat)
    requires Complete(d) && StartsAbove(d, start) && size > 0
    requires AtRank(d, size, Nth(d, start, size, k), g) && g + size < |d|
    ensures var next := if d[g + size - 1].score == 0 then 0 else NextRank(d, g, size);
      AtRank(d, size, Nth(d, start, size, k + 1), next)
  {
    hide From, Sorted, Response, Nth;
    NextQuery(d, start, size, k);
    var previous := Nth(d, start, size, k);
    if d[g + size - 1].score == 0 {
      FansPaging.FromIs(d, start, 0);
      ResponseAtRank(d, start, previous.articleId, size);
    } else {
      FansPaging.LowerOrEqualIsFrom(d, d[g + size - 1].score, g + size - 1);
      ResponseAtRank(d, d[g + size - 1].score, previous.articleId, size);
    }
  }

  lemma RankMoves(d: seq<Entry>, g: nat, size: nat)
    requires Complete(d) && Uncrowded(d, size) && size > 0 && g + size < |d|
    ensures g < NextRank(d, g, size) <= |d|
  {
    hide Ordered, Distinct;
    FansPaging.HigherIsBefore(d, d[g + size - 1].score, g);
  }

  lemma {:induction false} GetsToEnd(d: seq<Entry>, start: int, size: nat, k: nat, g: nat) returns (n: nat)
    requires Complete(d) && StartsAbove(d, start) && Uncrowded(d, size) && size > 0
    requires AtRank(d, size, Nth(d, start, size, k), g) && !LandsOnZero(d, g, size)
    ensures Nth(d, start, size, n).isEnd
    decreases |d| - g
  {
    hide Nth, Complete, Uncrowded, From;
    if g + size >= |d| {
      n := k;
    } else {
      RankAfter(d, start, size, k, g);
      RankMoves(d, g, size);
      n := GetsToEnd(d, start, size, k + 1, NextRank(d, g, size));
    }
  }

  lemma {:induction false} ZeroNeverEnds(d: seq<Entry>, start: int, size: nat, k: nat) returns (g: nat)
    requires Complete(d) && StartsAbove(d, start) && size > 0 && LandsOnZero(d, 0, size)
    ensures AtRank(d, size, Nth(d, start, size, k), g) && LandsOnZero(d, g, size)
  {
    hide Nth, Complete;
    if k == 0 {
      g := 0;
      FirstRank(d, start, size);
    } else {
      var before := ZeroNeverEnds(d, start, size, k - 1);
      RankAfter(d, start, size, k - 1, before);
      g := if d[before + size - 1].score == 0 then 0 else NextRank(d, before, size);
    }
  }

  lemma {:induction false} CrowdNeverEnds(d: seq<Entry>, start: int, size: nat, i: nat, k: nat) returns (g: nat)
    requires Complete(d) && StartsAbove(d, start) && size > 0
    requires i + size < |d| && d[i].score == d[i + size - 1].score
    ensures g <= i && AtRank(d, size, Nth(d, start, size, k), g)
  {
    hide Nth, Complete, From;
    if k == 0 {
      g := 0;
      FirstRank(d, start, size);
    } else {
      var before := CrowdNeverEnds(d, start, size, i, k - 1);
      RankAfter(d, start, size, k - 1, before);
      var last := before + size - 1;
      CrowdIsBelow(d, size, i, last);
      g := if d[last].score == 0 then 0 else NextRank(d, before, size);
    }
  }

  lemma CrowdIsBelow(d: seq<Entry>, size: nat, i: nat, last: nat)
    requires Complete(d) && size > 0 && i + size < |d| && d[i].score == d[i + size - 1].score && last <= i + size - 1
    ensures From(d, d[last].score) <= i
  {
    hide Ordered, Distinct;
    FansPaging.ScoresDescend(d, last, i + size - 1);
    FansPaging.LowerOrEqualIsFrom(d, d[last].score, i);
  }

  /**
   In whatever order rows arrive, a client ever sees isEnd exactly when the list has no article, or
   no page size of articles share a score and no page before the last ends with score 0.
   */
  lemma EveryOrderEndsIff(d: seq<Entry>, start: int, size: nat, pages: nat -> Page)
    requires Complete(d) && StartsAbove(d, start) && size > 0 && IsRun(d, start, size, pages)
    ensures (exists k: nat :: pages(k).isEnd) <==>
      |d| == 1 || (Uncrowded(d, size) && !LandsOnZero(d, 0, size))
  {
    hide Nth, Sorted, IsRun, LandsOnZero, Uncrowded;
    if |d| == 1 || (Uncrowded(d, size) && !LandsOnZero(d, 0, size)) {
      var n := ListOrderEnds(d, start, size);
      EveryOrderSameCursors(d, start, size, pages, n);
    } else {
      forall k: nat
        ensures !pages(k).isEnd
      {
        StallsBefore(d, start, size, k);
        EveryOrderSameCursors(d, start, size, pages, k);
      }
    }
  }

  lemma ListOrderEnds(d: seq<Entry>, start: int, size: nat) returns (n: nat)
    requires Complete(d) && StartsAbove(d, start) && size > 0
    requires |d| == 1 || (Uncrowded(d, size) && !LandsOnZero(d, 0, size))
    ensures Nth(d, start, size, n).isEnd
  {
    hide LandsOnZero, Uncrowded, Sorted, Nth;
    if |d| == 1 {
      n := NoArticles(d, start, size);
    } else {
      FirstRank(d, start, size);
      n := GetsToEnd(d, start, size, 0, 0);
    }
  }

  lemma NoArticles(d: seq<Entry>, start: int, size: nat) returns (n: nat)
    requires Complete(d) && |d| == 1 && start > 0 && size > 0
    ensures Nth(d, start, size, n).isEnd
  {
    n := 0;
    assert d == [Entry(0, SENTINEL)];
    OnlySentinel(d, start, size);
  }

  lemma StallsBefore(d: seq<Entry>, start: int, size: nat, k: nat)
    requires Complete(d) && StartsAbove(d, start) && size > 0 && |d| >= 2
    requires LandsOnZero(d, 0, size) || !Uncrowded(d, size)
    ensures !Nth(d, start, size, k).isEnd
  {
    hide Nth, Ordered, Distinct, From;
    if LandsOnZero(d, 0, size) {
      var g := ZeroNeverEnds(d, start, size, k);
    } else {
      hide LandsOnZero;
      var i :| 0 <= i && i + size < |d| && d[i].score <= d[i + size - 1].score;
      FansPaging.ScoresDescend(d, i, i + size - 1);
      var g := CrowdNeverEnds(d, start, size, i, k);
    }
  }
}
