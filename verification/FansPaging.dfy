/**
 Paging through a fans list: what one request returns, from the table or from the cached list, and
 what a client sees that feeds each response's (Cursor, Id) back until IsEnd.
 */
module FansPaging {
  import opened SortedSets
  import opened RedisStore
  import FollowGraph

  /** A response: its fans (score is the follow time), the next Cursor and Id, and IsEnd. */
  datatype Page = Page(fans: seq<Entry>, cursor: int, id: int, isEnd: bool)

  const NO_FANS: Page := Page([], 0, 0, false)

  /** Where the item the client already has stands in the fetched rows, or 0. */
  function BoundaryIn(kept: seq<Entry>, cursor: int, id: int): (i: nat)
    ensures kept != [] ==> i < |kept|
    ensures Entry(cursor, id) in kept ==> kept[i] == Entry(cursor, id)
    ensures Entry(cursor, id) !in kept ==> i == 0
  {
    assert kept[0..] == kept;
    IndexOrZero(kept, Entry(cursor, id), 0)
  }

  function IndexOrZero(kept: seq<Entry>, e: Entry, i: nat): (r: nat)
    requires i <= |kept|
    ensures r == 0 || (i <= r < |kept| && kept[r] == e)
    ensures e in kept[i..] <==> r < |kept| && r >= i && kept[r] == e
    decreases |kept| - i
  {
    if i == |kept| then 0
    else if kept[i] == e then i
    else IndexOrZero(kept, e, i + 1)
  }

  /** The last fetched fan gives the next cursor; the fetched rows start at the boundary item. */
  function Finish(kept: seq<Entry>, cursor: int, id: int, isEnd: bool): Page
    requires kept != []
  {
    var last := kept[|kept| - 1];
    Page(kept[BoundaryIn(kept, cursor, id)..], if last.score < 0 then 0 else last.score, last.member, isEnd)
  }

  /** One request served from the listing of an existing set. */
  function CachePage(d: seq<Entry>, cursor: int, id: int, size: nat): Page {
    var fetched := Range(d, cursor, size);
    var isEnd := fetched != [] && fetched[|fetched| - 1].member == SENTINEL;
    var kept := if isEnd then fetched[..|fetched| - 1] else fetched;
    if kept == [] then NO_FANS else Finish(kept, cursor, id, isEnd)
  }

  /** A response served from the newest rows of the table. */
  function TablePage(entries: seq<Entry>, cursor: int, id: int, size: nat): Page {
    if entries == [] || size == 0 then NO_FANS
    else Finish(entries[..Min(size, |entries|)], cursor, id, |entries| <= size)
  }

  /** The time a request starts from; Cursor 0 stands for now. */
  function StartOf(cursor: int, now: int): int {
    if cursor == 0 then now else cursor
  }

  /** The k-th response after a first one, each served from the cached list. */
  function Following(d: seq<Entry>, first: Page, now: int, size: nat, k: nat): Page {
    if k == 0 then first
    else
      var previous := Following(d, first, now, size, k - 1);
      CachePage(d, StartOf(previous.cursor, now), previous.id, size)
  }

  /** What the client has after k+1 responses, dropping the repeated first item of each later one. */
  function Gathered(d: seq<Entry>, first: Page, now: int, size: nat, k: nat): seq<Entry> {
    if k == 0 then first.fans
    else
      var more := Following(d, first, now, size, k).fans;
      Gathered(d, first, now, size, k - 1) + if more == [] then [] else more[1..]
  }

  /** The k-th response, and all the fans so far, when the list is there from the start. */
  function Nth(d: seq<Entry>, now: int, size: nat, k: nat): Page {
    Following(d, CachePage(d, now, 0, size), now, size, k)
  }

  function Collected(d: seq<Entry>, now: int, size: nat, k: nat): seq<Entry> {
    Gathered(d, CachePage(d, now, 0, size), now, size, k)
  }

  /** The k-th response is the first one that says IsEnd. */
  ghost predicate EndsAfter(d: seq<Entry>, first: Page, now: int, size: nat, k: nat) {
    Following(d, first, now, size, k).isEnd && forall j :: 0 <= j < k ==> !Following(d, first, now, size, j).isEnd
  }

  ghost predicate EndsWithSentinel(d: seq<Entry>) {
    && d != []
    && d[|d| - 1] == Entry(0, SENTINEL)
    && forall i :: 0 <= i < |d| - 1 ==> d[i].score > 0 && d[i].member > 0
  }

  /** A complete cached list: real fans with positive times above the sentinel. */
  ghost predicate CompleteList(d: seq<Entry>) {
    Sorted(d) && EndsWithSentinel(d)
  }

  /** No follow time is shared by size or more fans. */
  ghost predicate Uncrowded(d: seq<Entry>, size: nat) {
    forall i :: 0 <= i && i + size < |d| && 0 < size ==> d[i].score != d[i + size - 1].score
  }

  /** Every cached list that carries the sentinel is a complete list. */
  lemma SentinelListIsComplete(d: seq<Entry>, neighbours: set<int>)
    requires Sorted(d) && FollowGraph.ListOk(ScoresOf(d), neighbours) && SENTINEL in ScoresOf(d)
    requires forall k :: k in neighbours ==> k > 0
    ensures CompleteList(d)
    ensures MembersOf(d[..|d| - 1]) == neighbours
  {
    hide TextLess, Ordered;
    var i := SentinelRank(d);
    forall j | 0 <= j < |d| && j != i
      ensures j < i && d[j].score > 0 && d[j].member in neighbours
    {
      assert d[j].member in ScoresOf(d) && d[j].member != d[i].member;
      HigherComesFirst(d, j, i);
    }
    assert d[i] == Entry(0, SENTINEL);
    FansAreMembers(d, neighbours);
  }

  lemma SentinelRank(d: seq<Entry>) returns (i: nat)
    requires Distinct(d) && SENTINEL in ScoresOf(d)
    ensures i < |d| && d[i].member == SENTINEL
  {
    i :| 0 <= i < |d| && d[i].member == SENTINEL;
  }

  lemma HigherComesFirst(d: seq<Entry>, i: nat, j: nat)
    requires Sorted(d) && i < |d| && j < |d| && d[i].score > d[j].score
    ensures i < j
  {
    assert Above(d[i], d[j]);
  }

  lemma FansAreMembers(d: seq<Entry>, neighbours: set<int>)
    requires Distinct(d) && d != [] && d[|d| - 1].member == SENTINEL && SENTINEL !in neighbours
    requires forall k :: k in neighbours ==> k in MembersOf(d)
    requires forall i :: 0 <= i < |d| - 1 ==> d[i].member in neighbours
    ensures MembersOf(d[..|d| - 1]) == neighbours
  {
    forall k | k in neighbours
      ensures k in MembersOf(d[..|d| - 1])
    {
      var j :| 0 <= j < |d| && d[j].member == k;
      assert d[..|d| - 1][j].member == k;
    }
  }

  lemma ScoresDescend(d: seq<Entry>, i: nat, j: nat)
    requires Sorted(d) && i <= j < |d|
    ensures d[i].score >= d[j].score
  {
    if i < j {
      assert Above(d[i], d[j]);
    }
  }

  lemma {:induction false} FromIs(d: seq<Entry>, max: int, i: nat)
    requires i <= |d|
    requires forall j :: 0 <= j < i ==> d[j].score > max
    requires i < |d| ==> d[i].score <= max
    ensures From(d, max) == i
  {
  }

  /** On a list without negative scores a request fetches size entries from the first within the cursor. */
  lemma Fetched(d: seq<Entry>, cursor: int, size: nat)
    requires forall i :: 0 <= i < |d| ==> d[i].score >= 0
    ensures Range(d, cursor, size) == d[From(d, cursor)..Min(From(d, cursor) + size, |d|)]
  {
    hide From;
    FromIs(d, -1, |d|);
  }

  lemma MembersTellApart(d: seq<Entry>, i: nat, j: nat)
    requires Distinct(d) && i < |d| && j < |d| && d[i] == d[j]
    ensures i == j
  {
  }

  /** The group of entries with the boundary's score starts fewer than size places above it. */
  lemma GroupIsShort(d: seq<Entry>, size: nat, p: nat)
    requires CompleteList(d) && Uncrowded(d, size) && size > 0 && p < |d| - 1
    ensures From(d, d[p].score) <= p < From(d, d[p].score) + size - 1
  {
    hide From, Above;
    var g := From(d, d[p].score);
    ScoresDescend(d, g, p);
    if g + size < |d| {
      ScoresDescend(d, g, g + size - 1);
      HigherComesFirst(d, p, g + size - 1);
    }
  }

  /**
   A later response starts with exactly the boundary item the client already has, goes on in list
   order, and either reaches a higher rank or is the end.
   */
  lemma NextPage(d: seq<Entry>, size: nat, p: nat) returns (last: nat, isEnd: bool)
    requires CompleteList(d) && Uncrowded(d, size) && size > 0 && p < |d| - 1
    ensures p <= last < |d| - 1 && (if isEnd then last == |d| - 2 else p < last)
    ensures CachePage(d, d[p].score, d[p].member, size) == Page(d[p..last + 1], d[last].score, d[last].member, isEnd)
  {
    var g := From(d, d[p].score);
    GroupIsShort(d, size, p);
    isEnd := g + size >= |d|;
    last := if isEnd then |d| - 2 else g + size - 1;
    PageOfRange(d, d[p].score, d[p].member, size, last);
    FinishAtBoundary(d, g, p, last, isEnd);
  }

  /** Which rows a request keeps of a complete list. */
  lemma PageOfRange(d: seq<Entry>, cursor: int, id: int, size: nat, last: nat)
    requires EndsWithSentinel(d) && From(d, cursor) <= last < |d| - 1
    requires last == if From(d, cursor) + size >= |d| then |d| - 2 else From(d, cursor) + size - 1
    ensures CachePage(d, cursor, id, size) ==
      Finish(d[From(d, cursor)..last + 1], cursor, id, From(d, cursor) + size >= |d|)
  {
    hide From, Range, Finish;
    var g := From(d, cursor);
    Fetched(d, cursor, size);
    var fetched := Range(d, cursor, size);
    if g + size >= |d| {
      assert fetched == d[g..];
      assert fetched[|fetched| - 1] == d[|d| - 1];
      assert fetched[..|fetched| - 1] == d[g..last + 1];
    } else {
      assert fetched == d[g..last + 1];
      assert fetched[|fetched| - 1] == d[last];
    }
  }

  lemma FinishAtBoundary(d: seq<Entry>, g: nat, p: nat, last: nat, isEnd: bool)
    requires Distinct(d) && g <= p <= last < |d| && d[last].score >= 0
    ensures Finish(d[g..last + 1], d[p].score, d[p].member, isEnd) ==
      Page(d[p..last + 1], d[last].score, d[last].member, isEnd)
  {
    hide BoundaryIn;
    var kept := d[g..last + 1];
    assert kept[p - g] == d[p] == Entry(d[p].score, d[p].member);
    assert d[p] in kept;
    var i := BoundaryIn(kept, d[p].score, d[p].member);
    assert kept[i] == d[p] && kept[i] == d[g + i];
    MembersTellApart(d, p, g + i);
    assert kept[i..] == d[p..last + 1];
  }

  /** The clock of the first request is not before any follow. */
  ghost predicate StartsAt(d: seq<Entry>, now: int) {
    now > 0 && forall i :: 0 <= i < |d| ==> d[i].score <= now
  }

  lemma FirstPage(d: seq<Entry>, now: int, size: nat) returns (last: nat)
    requires EndsWithSentinel(d) && StartsAt(d, now) && size > 0 && |d| >= 2
    ensures last == if size >= |d| then |d| - 2 else size - 1
    ensures CachePage(d, now, 0, size) == Page(d[..last + 1], d[last].score, d[last].member, size >= |d|)
  {
    last := if size >= |d| then |d| - 2 else size - 1;
    FromIs(d, now, 0);
    PageOfRange(d, now, 0, size, last);
    FinishFresh(d, last, now, size >= |d|);
  }

  lemma FinishFresh(d: seq<Entry>, last: nat, cursor: int, isEnd: bool)
    requires last < |d| && d[last].score >= 0
    requires forall i :: 0 <= i <= last ==> d[i].member != 0
    ensures Finish(d[0..last + 1], cursor, 0, isEnd) == Page(d[..last + 1], d[last].score, d[last].member, isEnd)
  {
    hide BoundaryIn;
    var kept := d[0..last + 1];
    assert forall i :: 0 <= i < |kept| ==> kept[i] != Entry(cursor, 0);
    assert kept[0..] == kept;
  }

  lemma NextQuery(d: seq<Entry>, first: Page, now: int, size: nat, k: nat)
    ensures var previous := Following(d, first, now, size, k);
      Following(d, first, now, size, k + 1) ==
        CachePage(d, StartOf(previous.cursor, now), previous.id, size)
  {
    hide CachePage;
  }

  lemma NextGathered(d: seq<Entry>, first: Page, now: int, size: nat, k: nat)
    ensures Gathered(d, first, now, size, k + 1) ==
      var more := Following(d, first, now, size, k + 1).fans;
      Gathered(d, first, now, size, k) + if more == [] then [] else more[1..]
  {
    hide Following;
  }

  lemma GlueSlices(d: seq<Entry>, from: nat, p: nat, last: nat)
    requires from <= p + 1 && p <= last < |d|
    ensures d[from..p + 1] + d[p..last + 1][1..] == d[from..last + 1]
  {
    assert d[p..last + 1][1..] == d[p + 1..last + 1];
  }

  /** A first response that ends with the entry of rank p and says IsEnd only at the last fan. */
  ghost predicate EndsAt(d: seq<Entry>, first: Page, p: nat) {
    && p < |d| - 1
    && first.cursor == d[p].score && first.id == d[p].member
    && (first.isEnd ==> p == |d| - 2)
  }

  /** While no response was the last one, the client has the entries up to a growing rank. */
  lemma {:induction false} Progress(d: seq<Entry>, first: Page, p: nat, now: int, size: nat, k: nat) returns (q: nat)
    requires CompleteList(d) && Uncrowded(d, size) && EndsAt(d, first, p) && size > 0
    requires forall j :: 0 <= j < k ==> !Following(d, first, now, size, j).isEnd
    ensures p <= q <= |d| - 2
    ensures Following(d, first, now, size, k).cursor == d[q].score && Following(d, first, now, size, k).id == d[q].member
    ensures Gathered(d, first, now, size, k) == first.fans + d[p + 1..q + 1]
    ensures if Following(d, first, now, size, k).isEnd then q == |d| - 2 else q >= p + k
  {
    hide CachePage, CompleteList, Uncrowded;
    if k == 0 {
      q := p;
    } else {
      hide Following, Gathered;
      var r := Progress(d, first, p, now, size, k - 1);
      q := OnePageOn(d, first, p, r, now, size, k - 1);
    }
  }

  /** The response after one that ended with rank r. */
  lemma OnePageOn(d: seq<Entry>, first: Page, p: nat, r: nat, now: int, size: nat, k: nat) returns (q: nat)
    requires CompleteList(d) && Uncrowded(d, size) && size > 0 && p <= r < |d| - 1
    requires Following(d, first, now, size, k).cursor == d[r].score && Following(d, first, now, size, k).id == d[r].member
    requires Gathered(d, first, now, size, k) == first.fans + d[p + 1..r + 1]
    ensures r <= q <= |d| - 2
    ensures Following(d, first, now, size, k + 1).cursor == d[q].score
    ensures Following(d, first, now, size, k + 1).id == d[q].member
    ensures Gathered(d, first, now, size, k + 1) == first.fans + d[p + 1..q + 1]
    ensures if Following(d, first, now, size, k + 1).isEnd then q == |d| - 2 else q > r
  {
    hide CachePage, Sorted, Uncrowded, Following, Gathered;
    var isEnd;
    q, isEnd := NextPage(d, size, r);
    assert d[r].score > 0;
    NextQuery(d, first, now, size, k);
    NextGathered(d, first, now, size, k);
    GlueSlices(d, p + 1, r, q);
  }

  lemma {:induction false} FirstEnd(d: seq<Entry>, first: Page, p: nat, now: int, size: nat, from: nat) returns (k: nat)
    requires CompleteList(d) && Uncrowded(d, size) && EndsAt(d, first, p) && size > 0
    requires from < |d| && forall j :: 0 <= j < from ==> !Following(d, first, now, size, j).isEnd
    ensures from <= k < |d| && Following(d, first, now, size, k).isEnd
    ensures forall j :: 0 <= j < k ==> !Following(d, first, now, size, j).isEnd
    decreases |d| - from
  {
    hide Following, Ordered, Distinct, Uncrowded;
    var q := Progress(d, first, p, now, size, from);
    if Following(d, first, now, size, from).isEnd {
      k := from;
    } else {
      k := FirstEnd(d, first, p, now, size, from + 1);
    }
  }

  /** After any such response, paging lists every entry below it, once and in order, and then says IsEnd. */
  lemma PagingGoesOn(d: seq<Entry>, first: Page, p: nat, now: int, size: nat) returns (k: nat)
    requires CompleteList(d) && Uncrowded(d, size) && EndsAt(d, first, p) && size > 0
    ensures k < |d|
    ensures forall j :: 0 <= j < k ==> !Following(d, first, now, size, j).isEnd
    ensures Following(d, first, now, size, k).isEnd
    ensures Gathered(d, first, now, size, k) == first.fans + d[p + 1..|d| - 1]
  {
    hide Following, Gathered, Ordered, Distinct, Uncrowded;
    k := FirstEnd(d, first, p, now, size, 0);
    var q := Progress(d, first, p, now, size, k);
  }

  /** Two responses in a row share exactly the boundary item, and the boundary moves up a rank or more. */
  lemma AdjacentPages(d: seq<Entry>, now: int, size: nat, k: nat) returns (p: nat, next: nat)
    requires CompleteList(d) && Uncrowded(d, size) && StartsAt(d, now) && size > 0 && |d| >= 2
    requires forall j :: 0 <= j <= k ==> !Nth(d, now, size, j).isEnd
    ensures p <= next <= |d| - 2
    ensures Collected(d, now, size, k) == d[..p + 1]
    ensures Nth(d, now, size, k + 1).fans == d[p..next + 1]
    ensures Nth(d, now, size, k).cursor == d[p].score && Nth(d, now, size, k).id == d[p].member
    ensures Nth(d, now, size, k + 1).isEnd || p < next
  {
    hide CachePage, Following, Gathered, Ordered, Distinct, Uncrowded;
    var last := FirstPage(d, now, size);
    var first := CachePage(d, now, 0, size);
    assert forall j: nat :: Nth(d, now, size, j) == Following(d, first, now, size, j);
    p := Progress(d, first, last, now, size, k);
    var isEnd;
    next, isEnd := NextPage(d, size, p);
    NextQuery(d, first, now, size, k);
    assert d[..last + 1] + d[last + 1..p + 1] == d[..p + 1];
  }

  /** Feeding (Cursor, Id) back lists every cached fan, in order and once, and then says IsEnd. */
  lemma PagingListsEveryFan(d: seq<Entry>, now: int, size: nat) returns (k: nat)
    requires CompleteList(d) && Uncrowded(d, size) && StartsAt(d, now) && size > 0 && |d| >= 2
    ensures k < |d|
    ensures forall j :: 0 <= j < k ==> !Nth(d, now, size, j).isEnd
    ensures Nth(d, now, size, k).isEnd
    ensures Collected(d, now, size, k) == d[..|d| - 1]
  {
    hide CachePage, Following, Gathered, Ordered, Distinct, Uncrowded;
    var last := FirstPage(d, now, size);
    k := PagingGoesOn(d, CachePage(d, now, 0, size), last, now, size);
    assert d[..last + 1] + d[last + 1..|d| - 1] == d[..|d| - 1];
  }

  /**
   In any state a run of the follow service reaches: paging through a fans list that carries the
   sentinel shows exactly the current fans, as many as the fans counter says.
   */
  lemma PagingShowsTheFans(s: FollowGraph.State, v: int, d: seq<Entry>, now: int, size: nat) returns (k: nat)
    requires FollowGraph.Inv(s) && FansKey(v) in s.sets && SENTINEL in s.sets[FansKey(v)]
    requires Sorted(d) && ScoresOf(d) == s.sets[FansKey(v)]
    requires Uncrowded(d, size) && StartsAt(d, now) && size > 0 && |d| >= 2
    ensures Nth(d, now, size, k).isEnd && forall j :: 0 <= j < k ==> !Nth(d, now, size, j).isEnd
    ensures MembersOf(Collected(d, now, size, k)) == FollowGraph.Fans(s.edges, v)
    ensures |Collected(d, now, size, k)| == FollowGraph.CountOf(s.counts, v).fans
  {
    hide Nth, Collected, Ordered, FollowGraph.ListOk;
    assert FollowGraph.ListOk(s.sets[FansKey(v)], FollowGraph.Neighbours(s.edges, FansKey(v)));
    SentinelListIsComplete(d, FollowGraph.Fans(s.edges, v));
    k := PagingListsEveryFan(d, now, size);
    assert Distinct(d[..|d| - 1]);
    MembersOfSize(d[..|d| - 1]);
    assert FollowGraph.CountOf(s.counts, v) ==
      FollowGraph.Count(|FollowGraph.Follows(s.edges, v)|, |FollowGraph.Fans(s.edges, v)|);
  }

  /** A list whose fans are all gone answers every request alike, and never with IsEnd. */
  lemma {:induction false} EmptyListNeverEnds(d: seq<Entry>, now: int, size: nat, k: nat)
    requires d == [Entry(0, SENTINEL)] && now > 0 && size > 0
    ensures Nth(d, now, size, k) == NO_FANS
  {
    hide Finish;
    assert CachePage(d, now, 0, size) == NO_FANS by {
      FromIs(d, now, 0);
      Fetched(d, now, size);
      assert Range(d, now, size) == d;
    }
    hide CachePage, Range;
    if k > 0 {
      EmptyListNeverEnds(d, now, size, k - 1);
      NextQuery(d, CachePage(d, now, 0, size), now, size, k - 1);
    }
  }

  /** Where a crowd of equal times starts. */
  lemma CrowdStart(d: seq<Entry>, size: nat, i: nat) returns (g: nat)
    requires Sorted(d) && size > 0 && i + size < |d| && d[i].score == d[i + size - 1].score
    ensures g <= i && g + size < |d| && d[g].score == d[g + size - 1].score
    ensures From(d, d[g].score) == g
  {
    hide From, Above;
    g := From(d, d[i].score);
    ScoresDescend(d, g, i);
    ScoresDescend(d, g, g + size - 1);
    ScoresDescend(d, g + size - 1, i + size - 1);
  }

  /** A page that starts at or above a crowd does not get past it. */
  lemma StuckPage(d: seq<Entry>, size: nat, g: nat, cursor: int, id: int) returns (p: nat)
    requires CompleteList(d) && size > 0 && g + size < |d| && d[g].score <= cursor
    ensures p <= g + size - 1
    ensures CachePage(d, cursor, id, size).cursor == d[p].score
    ensures CachePage(d, cursor, id, size).id == d[p].member
    ensures !CachePage(d, cursor, id, size).isEnd
  {
    hide CachePage, From, Range, BoundaryIn, Above;
    LowerOrEqualIsFrom(d, cursor, g);
    p := From(d, cursor) + size - 1;
    PageOfRange(d, cursor, id, size, p);
  }

  /** With size or more fans of one follow time, paging that is not past them stalls there for ever. */
  lemma {:induction false} CrowdHolds(d: seq<Entry>, first: Page, p: nat, now: int, size: nat, g: nat, k: nat)
    returns (q: nat)
    requires CompleteList(d) && size > 0 && g + size < |d| && d[g].score == d[g + size - 1].score
    requires p < |d| && first.cursor == d[p].score >= d[g].score && !first.isEnd
    ensures q < |d| && d[q].score >= d[g].score
    ensures Following(d, first, now, size, k).cursor == d[q].score && !Following(d, first, now, size, k).isEnd
  {
    hide CachePage, Ordered;
    if k == 0 {
      q := p;
    } else {
      var r := CrowdHolds(d, first, p, now, size, g, k - 1);
      var previous := Following(d, first, now, size, k - 1);
      q := StuckPage(d, size, g, previous.cursor, previous.id);
      ScoresDescend(d, q, g + size - 1);
      NextQuery(d, first, now, size, k - 1);
    }
  }

  lemma CrowdNeverEnds(d: seq<Entry>, now: int, size: nat, g: nat, k: nat)
    requires CompleteList(d) && StartsAt(d, now) && size > 0
    requires g + size < |d| && d[g].score == d[g + size - 1].score
    ensures !Nth(d, now, size, k).isEnd
  {
    hide CachePage, Following, Ordered;
    var p := StuckPage(d, size, g, now, 0);
    ScoresDescend(d, p, g + size - 1);
    var q := CrowdHolds(d, CachePage(d, now, 0, size), p, now, size, g, k);
  }

  /** A list that lacks the sentinel never says IsEnd, whatever is asked. */
  lemma NoSentinelNoEnd(d: seq<Entry>, now: int, size: nat, k: nat)
    requires Distinct(d) && SENTINEL !in ScoresOf(d)
    ensures !Nth(d, now, size, k).isEnd
  {
    var first := CachePage(d, now, 0, size);
    if k > 0 {
      NextQuery(d, first, now, size, k - 1);
      var previous := Following(d, first, now, size, k - 1);
      OpenPage(d, StartOf(previous.cursor, now), previous.id, size);
    } else {
      OpenPage(d, now, 0, size);
    }
  }

  lemma OpenPage(d: seq<Entry>, cursor: int, id: int, size: nat)
    requires Distinct(d) && SENTINEL !in ScoresOf(d)
    ensures !CachePage(d, cursor, id, size).isEnd
  {
    hide From, BoundaryIn, ScoresOf;
    var fetched := Range(d, cursor, size);
    if fetched != [] {
      var last := From(d, cursor) + |fetched| - 1;
      assert fetched[|fetched| - 1] == d[last];
      assert d[last].member in MembersOf(d);
    }
  }

  /** A cursor that some entry of the list has as its time, or none. */
  ghost predicate CursorOf(d: seq<Entry>, cursor: int) {
    cursor == 0 || exists i :: 0 <= i < |d| && d[i].score == cursor
  }

  lemma CachePageCursor(d: seq<Entry>, cursor: int, id: int, size: nat)
    requires forall i :: 0 <= i < |d| ==> d[i].score >= 0
    ensures CursorOf(d, CachePage(d, cursor, id, size).cursor)
  {
    hide From, CachePage;
    Fetched(d, cursor, size);
    var fetched, g := Range(d, cursor, size), From(d, cursor);
    CursorIsFetched(d, cursor, id, size);
    if i :| 0 <= i < |fetched| && fetched[i].score == CachePage(d, cursor, id, size).cursor {
      assert fetched[i] == d[g + i];
    }
  }

  lemma CursorIsFetched(d: seq<Entry>, cursor: int, id: int, size: nat)
    ensures CursorOf(Range(d, cursor, size), CachePage(d, cursor, id, size).cursor)
  {
    hide Range, BoundaryIn;
  }

  lemma {:induction false} FollowingCursor(d: seq<Entry>, first: Page, now: int, size: nat, k: nat)
    requires forall i :: 0 <= i < |d| ==> d[i].score >= 0
    requires CursorOf(d, first.cursor)
    ensures CursorOf(d, Following(d, first, now, size, k).cursor)
  {
    hide CachePage;
    if k > 0 {
      var previous := Following(d, first, now, size, k - 1);
      CachePageCursor(d, StartOf(previous.cursor, now), previous.id, size);
    }
  }

  lemma CursorIsCached(d: seq<Entry>, cursor: int, now: int, size: nat)
    requires d != [] && StartsAt(d, now) && size > 0 && CursorOf(d, cursor)
    requires forall i :: 0 <= i < |d| ==> d[i].score >= 0
    ensures Range(d, StartOf(cursor, now), size) != []
  {
    hide From;
    Fetched(d, StartOf(cursor, now), size);
    if cursor == 0 {
      LowerOrEqualIsFrom(d, now, 0);
    } else {
      var i :| 0 <= i < |d| && d[i].score == cursor;
      LowerOrEqualIsFrom(d, cursor, i);
    }
  }

  /** While the list stays, every request of the client finds an answer in it. */
  lemma EveryRequestIsCached(d: seq<Entry>, first: Page, now: int, size: nat, k: nat)
    requires d != [] && StartsAt(d, now) && size > 0 && CursorOf(d, first.cursor)
    requires forall i :: 0 <= i < |d| ==> d[i].score >= 0
    ensures Range(d, now, size) != []
    ensures Range(d, StartOf(Following(d, first, now, size, k).cursor, now), size) != []
  {
    hide Range, Following;
    CursorIsCached(d, 0, now, size);
    FollowingCursor(d, first, now, size, k);
    CursorIsCached(d, Following(d, first, now, size, k).cursor, now, size);
  }

  /**
   A client that pages through a cached list ever sees IsEnd exactly when the list carries the
   sentinel, has a fan, and no size fans share a follow time.
   */
  lemma PagingEndsIff(d: seq<Entry>, neighbours: set<int>, now: int, size: nat)
    requires Sorted(d) && FollowGraph.ListOk(ScoresOf(d), neighbours) && forall k :: k in neighbours ==> k > 0
    requires d != [] && StartsAt(d, now) && size > 0
    ensures (exists k: nat :: Nth(d, now, size, k).isEnd) <==>
      SENTINEL in ScoresOf(d) && |d| >= 2 && Uncrowded(d, size)
  {
    hide Nth, Ordered, Distinct, FollowGraph.ListOk;
    if SENTINEL !in ScoresOf(d) {
      forall k: nat
        ensures !Nth(d, now, size, k).isEnd
      {
        NoSentinelNoEnd(d, now, size, k);
      }
    } else {
      SentinelListIsComplete(d, neighbours);
      CompleteListEndsIff(d, now, size);
    }
  }

  lemma CompleteListEndsIff(d: seq<Entry>, now: int, size: nat)
    requires CompleteList(d) && StartsAt(d, now) && size > 0
    ensures (exists k: nat :: Nth(d, now, size, k).isEnd) <==> |d| >= 2 && Uncrowded(d, size)
  {
    hide Nth, Ordered, Distinct;
    if |d| == 1 {
      forall k: nat
        ensures !Nth(d, now, size, k).isEnd
      {
        assert d == [Entry(0, SENTINEL)];
        EmptyListNeverEnds(d, now, size, k);
      }
    } else if Uncrowded(d, size) {
      var k := PagingListsEveryFan(d, now, size);
    } else {
      var i :| 0 <= i && i + size < |d| && d[i].score == d[i + size - 1].score;
      var g := CrowdStart(d, size, i);
      forall k: nat
        ensures !Nth(d, now, size, k).isEnd
      {
        CrowdNeverEnds(d, now, size, g, k);
      }
    }
  }

  /** The fans that share a follow time. */
  ghost function Sharing(d: seq<Entry>, time: int): set<int> {
    set i | 0 <= i < |d| - 1 && d[i].score == time :: d[i].member
  }

  /** A list is uncrowded exactly when every follow time is shared by fewer than size fans. */
  lemma UncrowdedMeans(d: seq<Entry>, size: nat)
    requires CompleteList(d) && size > 0
    ensures Uncrowded(d, size) <==> forall time :: |Sharing(d, time)| < size
  {
    if Uncrowded(d, size) {
      forall time
        ensures |Sharing(d, time)| < size
      {
        SharingIsShort(d, size, time);
      }
    } else {
      var i :| 0 <= i && i + size < |d| && d[i].score == d[i + size - 1].score;
      CrowdShares(d, size, i);
    }
  }

  lemma CrowdShares(d: seq<Entry>, size: nat, i: nat)
    requires Sorted(d) && size > 0 && i + size < |d| && d[i].score == d[i + size - 1].score
    ensures |Sharing(d, d[i].score)| >= size
  {
    var crowd := d[i..i + size];
    forall k | k in MembersOf(crowd)
      ensures k in Sharing(d, d[i].score)
    {
      var j :| 0 <= j < |crowd| && crowd[j].member == k;
      ScoresDescend(d, i, i + j);
      ScoresDescend(d, i + j, i + size - 1);
      assert d[i + j].member == k;
    }
    MembersOfSize(crowd);
    SubsetSize(MembersOf(crowd), Sharing(d, d[i].score));
  }

  lemma SharingIsShort(d: seq<Entry>, size: nat, time: int)
    requires CompleteList(d) && size > 0 && Uncrowded(d, size)
    ensures |Sharing(d, time)| < size
  {
    if time <= 0 {
      assert Sharing(d, time) == {};
    } else {
      var g, h := From(d, time), From(d, time - 1);
      GroupEnds(d, size, time);
      SharingIsGroup(d, time);
      MembersOfSize(d[g..h]);
      SubsetSize(Sharing(d, time), MembersOf(d[g..h]));
    }
  }

  lemma GroupEnds(d: seq<Entry>, size: nat, time: int)
    requires CompleteList(d) && size > 0 && Uncrowded(d, size) && time > 0
    ensures From(d, time) <= From(d, time - 1) < From(d, time) + size
  {
    hide From, Above;
    var g, h := From(d, time), From(d, time - 1);
    LowerOrEqualIsFrom(d, time, h);
    LowerOrEqualIsFrom(d, time - 1, |d| - 1);
    if g + size < |d| {
      ScoresDescend(d, g, g + size - 1);
      LowerOrEqualIsFrom(d, time - 1, g + size - 1);
    }
  }

  lemma SharingIsGroup(d: seq<Entry>, time: int)
    requires Sorted(d) && From(d, time) <= From(d, time - 1)
    ensures Sharing(d, time) <= MembersOf(d[From(d, time)..From(d, time - 1)])
  {
    hide From, Above;
    var g, h := From(d, time), From(d, time - 1);
    forall k | k in Sharing(d, time)
      ensures k in MembersOf(d[g..h])
    {
      var i :| 0 <= i < |d| - 1 && d[i].score == time && d[i].member == k;
      LowerOrEqualIsFrom(d, time, i);
      HigherIsBefore(d, time - 1, i);
      assert d[g..h][i - g] == d[i];
    }
  }

  lemma LowerOrEqualIsFrom(d: seq<Entry>, max: int, i: nat)
    requires i < |d| && d[i].score <= max
    ensures From(d, max) <= i
  {
  }

  lemma HigherIsBefore(d: seq<Entry>, max: int, i: nat)
    requires Sorted(d) && i < |d| && d[i].score > max
    ensures i < From(d, max)
  {
    var h := From(d, max);
    if h <= i {
      ScoresDescend(d, h, i);
    }
  }
}
