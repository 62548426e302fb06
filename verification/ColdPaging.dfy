/**
 Paging through a fans list that is not cached yet: the first response is made of the newest rows
 by id, the fill follows it, and every later response comes from the list, which is ordered by time.
 */
module ColdPaging {
  import opened Decimal
  import opened SortedSets
  import opened RedisStore
  import opened FansPaging
  import FollowGraph

  /** The listing after a complete fill from fewer than CACHE_MAX rows. */
  ghost predicate Fills(d: seq<Entry>, entries: seq<Entry>) {
    && Sorted(d) && Distinct(entries) && entries != []
    && (forall i :: 0 <= i < |entries| ==> entries[i].score > 0 && entries[i].member > 0)
    && ScoresOf(d) == ScoresOf(entries)[SENTINEL := 0]
  }

  /** Newest by id and newest by time agree on the first page and on its last fan. */
  ghost predicate SameFirst(entries: seq<Entry>, d: seq<Entry>, size: nat) {
    && 0 < size <= |entries| && size <= |d|
    && MembersOf(entries[..size]) == MembersOf(d[..size])
    && entries[size - 1] == d[size - 1]
  }

  /** Every one of these fans, each once, and nobody else. */
  ghost predicate ListsOnce(all: seq<Entry>, fans: set<int>) {
    MembersOf(all) == fans && |all| == |fans|
  }

  lemma RealFans(entries: seq<Entry>)
    requires forall i :: 0 <= i < |entries| ==> entries[i].score > 0 && entries[i].member > 0
    ensures forall k :: k in MembersOf(entries) ==> k > 0
    ensures Distinct(entries) ==> forall k :: k in ScoresOf(entries) ==> ScoresOf(entries)[k] > 0
  {
    forall k | k in MembersOf(entries)
      ensures k > 0 && (Distinct(entries) ==> ScoresOf(entries)[k] > 0)
    {
      var i :| 0 <= i < |entries| && entries[i].member == k;
    }
  }

  lemma FilledSize(d: seq<Entry>, entries: seq<Entry>)
    requires Distinct(d) && Distinct(entries) && SENTINEL !in MembersOf(entries)
    requires ScoresOf(d) == ScoresOf(entries)[SENTINEL := 0]
    ensures |d| == |entries| + 1
  {
    hide Distinct;
    MembersOfSize(entries);
    MembersOfSize(d);
    assert MembersOf(d) == MembersOf(entries) + {SENTINEL};
  }

  lemma FilledIsComplete(d: seq<Entry>, entries: seq<Entry>)
    requires Fills(d, entries)
    ensures CompleteList(d) && |d| == |entries| + 1
    ensures MembersOf(d[..|entries|]) == MembersOf(entries)
  {
    hide Ordered, Distinct, MembersOf, CompleteList;
    RealFans(entries);
    assert FollowGraph.ListOk(ScoresOf(d), MembersOf(entries));
    SentinelListIsComplete(d, MembersOf(entries));
    FilledSize(d, entries);
  }

  /** An entry of the table is an entry of the list. */
  lemma WhereListed(d: seq<Entry>, entries: seq<Entry>, i: nat) returns (p: nat)
    requires Fills(d, entries) && i < |entries|
    ensures p < |d| && d[p] == entries[i]
  {
    hide Ordered;
    var k := entries[i].member;
    assert k in ScoresOf(entries) && k != SENTINEL;
    assert k in MembersOf(d);
    p :| 0 <= p < |d| && d[p].member == k;
  }

  lemma MembersOfConcat(a: seq<Entry>, b: seq<Entry>)
    ensures MembersOf(a + b) == MembersOf(a) + MembersOf(b)
  {
    forall k | k in MembersOf(a) + MembersOf(b)
      ensures k in MembersOf(a + b)
    {
      if k in MembersOf(a) {
        var i :| 0 <= i < |a| && a[i].member == k;
        assert (a + b)[i].member == k;
      } else {
        var i :| 0 <= i < |b| && b[i].member == k;
        assert (a + b)[|a| + i].member == k;
      }
    }
  }

  lemma BoundaryListed(d: seq<Entry>, entries: seq<Entry>, size: nat) returns (p: nat)
    requires Fills(d, entries) && 0 < size < |entries|
    ensures CompleteList(d) && |d| == |entries| + 1 && MembersOf(d[..|entries|]) == MembersOf(entries)
    ensures Distinct(d) && Distinct(entries[..size])
    ensures p < |entries| && d[p] == entries[size - 1]
  {
    hide Ordered, ScoresOf;
    FilledIsComplete(d, entries);
    p := WhereListed(d, entries, size - 1);
    assert entries[size - 1].member > 0;
  }

  /** A first page followed by what the list has below rank p is every fan once exactly when it is what the list has down to there. */
  lemma PiecesFit(d: seq<Entry>, n: nat, first: seq<Entry>, p: nat)
    requires Distinct(d) && p < n <= |d| && Distinct(first) && first != [] && first[|first| - 1] == d[p]
    ensures (MembersOf(first + d[p + 1..n]) == MembersOf(d[..n]) && |first + d[p + 1..n]| == n) <==>
      |first| <= n && MembersOf(first) == MembersOf(d[..|first|]) && first[|first| - 1] == d[|first| - 1]
  {
    hide MembersOf;
    var size := |first|;
    MembersOfConcat(first, d[p + 1..n]);
    if p == size - 1 {
      assert d[..n] == d[..size] + d[size..n];
      MembersOfConcat(d[..size], d[size..n]);
      if MembersOf(first + d[p + 1..n]) == MembersOf(d[..n]) {
        PartsApart(d, size, n);
        MembersOfSize(first);
        MembersOfSize(d[..size]);
        SubsetSize(MembersOf(d[..size]), MembersOf(first));
      }
    }
  }

  lemma PartsApart(d: seq<Entry>, i: nat, n: nat)
    requires Distinct(d) && i <= n <= |d|
    ensures MembersOf(d[..i]) !! MembersOf(d[i..n])
  {
    forall k | k in MembersOf(d[..i])
      ensures k !in MembersOf(d[i..n])
    {
      var j :| 0 <= j < i && d[..i][j].member == k;
    }
  }

  lemma TableFirst(entries: seq<Entry>, now: int, size: nat)
    requires entries != [] && size > 0
    requires forall i :: 0 <= i < |entries| ==> entries[i].score > 0 && entries[i].member > 0
    ensures var n := Min(size, |entries|);
      TablePage(entries, now, 0, size) ==
        Page(entries[..n], entries[n - 1].score, entries[n - 1].member, |entries| <= size)
  {
    hide Finish;
    FinishFresh(entries, Min(size, |entries|) - 1, now, |entries| <= size);
  }

  /** A table with more than a page: later pages go on in the list, below the last fan of the first. */
  lemma LongTable(d: seq<Entry>, entries: seq<Entry>, now: int, size: nat) returns (k: nat, p: nat)
    requires Fills(d, entries) && 0 < size < |entries| && Uncrowded(d, size)
    ensures p < |entries| < |d| && d[p] == entries[size - 1]
    ensures var first := TablePage(entries, now, 0, size);
      EndsAfter(d, first, now, size, k) &&
      Gathered(d, first, now, size, k) == entries[..size] + d[p + 1..|entries|]
  {
    hide Sorted, ScoresOf, CompleteList, Uncrowded, TablePage, Following, Gathered;
    p := BoundaryListed(d, entries, size);
    TableFirst(entries, now, size);
    k := PagingGoesOn(d, TablePage(entries, now, 0, size), p, now, size);
  }

  lemma CoversIff(d: seq<Entry>, entries: seq<Entry>, size: nat, p: nat)
    requires Fills(d, entries) && 0 < size < |entries| && p < |entries| < |d| && d[p] == entries[size - 1]
    ensures ListsOnce(entries[..size] + d[p + 1..|entries|], MembersOf(entries)) <==> SameFirst(entries, d, size)
  {
    hide MembersOf, ScoresOf, Ordered;
    MembersOfSize(entries);
    FilledIsComplete(d, entries);
    PiecesFit(d, |entries|, entries[..size], p);
  }

  lemma ShortTable(d: seq<Entry>, entries: seq<Entry>, now: int, size: nat)
    requires Fills(d, entries) && |entries| <= size
    ensures var first := TablePage(entries, now, 0, size);
      EndsAfter(d, first, now, size, 0) && ListsOnce(Gathered(d, first, now, size, 0), MembersOf(entries))
  {
    MembersOfSize(entries);
    hide TablePage, ScoresOf, Sorted;
    TableFirst(entries, now, size);
    assert entries[..|entries|] == entries;
  }

  /** Without a crowd, paging ends, and with every fan listed once if the first pages agree. */
  lemma UncrowdedColdPaging(d: seq<Entry>, entries: seq<Entry>, now: int, size: nat) returns (k: nat)
    requires Fills(d, entries) && size > 0 && (|entries| <= size || Uncrowded(d, size))
    ensures var first := TablePage(entries, now, 0, size);
      EndsAfter(d, first, now, size, k) &&
      (ListsOnce(Gathered(d, first, now, size, k), MembersOf(entries)) <==>
        |entries| <= size || SameFirst(entries, d, size))
  {
    hide Fills, TablePage, Gathered, EndsAfter, ListsOnce, SameFirst;
    if |entries| <= size {
      k := 0;
      ShortTable(d, entries, now, size);
    } else {
      var p;
      k, p := LongTable(d, entries, now, size);
      CoversIff(d, entries, size, p);
    }
  }

  // ---- Crowds ----

  /** A page asked for from rank q is a piece of the list that starts no newer and ends no higher. */
  lemma LaterPage(d: seq<Entry>, size: nat, q: nat, id: int) returns (from: nat, last: nat)
    requires CompleteList(d) && size > 0 && q < |d| - 1
    ensures from <= last < |d| - 1 && 0 < d[last].score <= d[from].score <= d[q].score
    ensures CachePage(d, d[q].score, id, size).cursor == d[last].score
    ensures CachePage(d, d[q].score, id, size).fans == d[from..last + 1]
  {
    hide CachePage, From, Range, BoundaryIn, Ordered, Distinct;
    var g := From(d, d[q].score);
    LowerOrEqualIsFrom(d, d[q].score, q);
    last := if g + size >= |d| then |d| - 2 else g + size - 1;
    PageOfRange(d, d[q].score, id, size, last);
    from := g + BoundaryIn(d[g..last + 1], d[q].score, id);
    ScoresDescend(d, g, from);
    ScoresDescend(d, from, last);
  }

  /** These entries are of the first page or entries of the list that are not newer than a time. */
  ghost predicate OnlyOlder(d: seq<Entry>, all: seq<Entry>, first: seq<Entry>, time: int) {
    forall e :: e in all ==> e in first || (e in d && e.score <= time)
  }

  lemma AddOlder(d: seq<Entry>, all: seq<Entry>, first: seq<Entry>, time: int, from: nat, last: nat)
    requires Sorted(d) && OnlyOlder(d, all, first, time) && from <= last < |d| && d[from].score <= time
    ensures OnlyOlder(d, all + d[from..last + 1][1..], first, time)
  {
    hide Above;
    forall e | e in d[from..last + 1][1..]
      ensures e in d && e.score <= time
    {
      var i :| 0 <= i < last - from && d[from..last + 1][1..][i] == e;
      ScoresDescend(d, from, from + 1 + i);
    }
  }

  /** After a first page that ends at rank p, nothing newer than that is shown. */
  lemma {:induction false} StaysBelow(d: seq<Entry>, first: Page, p: nat, now: int, size: nat, k: nat) returns (q: nat)
    requires CompleteList(d) && size > 0 && p < |d| - 1 && first.cursor == d[p].score > 0
    ensures q < |d| - 1 && 0 < d[q].score <= d[p].score && Following(d, first, now, size, k).cursor == d[q].score
    ensures OnlyOlder(d, Gathered(d, first, now, size, k), first.fans, d[p].score)
  {
    hide CachePage, CompleteList;
    if k == 0 {
      q := p;
    } else {
      hide Following, Gathered, OnlyOlder;
      var r := StaysBelow(d, first, p, now, size, k - 1);
      q := GoesOnBelow(d, first, r, now, size, k - 1, d[p].score);
    }
  }

  lemma GoesOnBelow(d: seq<Entry>, first: Page, r: nat, now: int, size: nat, k: nat, time: int) returns (q: nat)
    requires CompleteList(d) && size > 0 && r < |d| - 1
    requires Following(d, first, now, size, k).cursor == d[r].score && 0 < d[r].score <= time
    requires OnlyOlder(d, Gathered(d, first, now, size, k), first.fans, time)
    ensures q < |d| - 1 && 0 < d[q].score <= d[r].score && Following(d, first, now, size, k + 1).cursor == d[q].score
    ensures OnlyOlder(d, Gathered(d, first, now, size, k + 1), first.fans, time)
  {
    hide CachePage, Following, Gathered, OnlyOlder, Ordered, Distinct, EndsWithSentinel;
    var from;
    from, q := LaterPage(d, size, r, Following(d, first, now, size, k).id);
    NextQuery(d, first, now, size, k);
    NextGathered(d, first, now, size, k);
    AddOlder(d, Gathered(d, first, now, size, k), first.fans, time, from, q);
  }

  /** An entry of the list newer than the first page's end is listed by the first page or never. */
  lemma NewerIsFirst(d: seq<Entry>, entries: seq<Entry>, p: nat, size: nat, all: seq<Entry>, i: nat)
    requires Fills(d, entries) && 0 < size < |entries| && p < |d| && d[p] == entries[size - 1]
    requires OnlyOlder(d, all, entries[..size], d[p].score)
    requires i < |d| && d[i].score > d[p].score && d[i].member in MembersOf(all)
    ensures d[i].member in MembersOf(entries[..size - 1])
  {
    hide Sorted, ScoresOf, OnlyOlder;
    var j := ListedFirst(d, all, entries[..size], d[p].score, i);
    var q := WhereListed(d, entries, j);
    SameMember(d, i, entries[j]);
    assert entries[..size - 1][j].member == d[i].member;
  }

  lemma ListedFirst(d: seq<Entry>, all: seq<Entry>, first: seq<Entry>, time: int, i: nat) returns (j: nat)
    requires Sorted(d) && OnlyOlder(d, all, first, time)
    requires i < |d| && d[i].score > time && d[i].member in MembersOf(all)
    ensures j < |first| && first[j].member == d[i].member
  {
    hide Sorted;
    var n :| 0 <= n < |all| && all[n].member == d[i].member;
    var e := all[n];
    assert e in all;
    SameMember(d, i, e);
    assert e in first;
    j :| 0 <= j < |first| && first[j] == e;
  }

  lemma SameMember(d: seq<Entry>, i: nat, e: Entry)
    requires Sorted(d) && i < |d| && e.member == d[i].member
    ensures e in d ==> e == d[i]
  {
    hide Ordered;
  }

  /** A first page that ends below a crowd has shown too few of it, and the others are never shown. */
  lemma CrowdIsMissed(d: seq<Entry>, entries: seq<Entry>, p: nat, size: nat, g: nat, all: seq<Entry>)
    requires Fills(d, entries) && 0 < size < |entries| && p < |d| && d[p] == entries[size - 1]
    requires g + size < |d| && d[g].score == d[g + size - 1].score > d[p].score
    requires OnlyOlder(d, all, entries[..size], d[p].score)
    ensures MembersOf(all) != MembersOf(entries)
  {
    hide Ordered, ScoresOf, MembersOf;
    if MembersOf(all) == MembersOf(entries) {
      FilledIsComplete(d, entries);
      var crowd := d[g..g + size];
      forall k | k in MembersOf(crowd)
        ensures k in MembersOf(entries[..size - 1])
      {
        var i := CrowdMember(d, g, size, k);
        NewerIsFirst(d, entries, p, size, all, i);
      }
      MembersOfSize(crowd);
      MembersOfSize(entries[..size - 1]);
      SubsetSize(MembersOf(crowd), MembersOf(entries[..size - 1]));
      assert false;
    }
  }

  lemma CrowdMember(d: seq<Entry>, g: nat, size: nat, k: int) returns (i: nat)
    requires Sorted(d) && size > 0 && g + size < |d| && d[g].score == d[g + size - 1].score
    requires k in MembersOf(d[g..g + size])
    ensures i < |d| - 1 && d[i].member == k && d[i].score == d[g].score
    ensures k in MembersOf(d[..|d| - 1])
  {
    hide Ordered, Distinct;
    var j :| 0 <= j < size && d[g..g + size][j].member == k;
    i := g + j;
    ScoresDescend(d, g, i);
    ScoresDescend(d, i, g + size - 1);
    assert d[..|d| - 1][i].member == k;
  }

  /** With a crowd, a table longer than a page is never listed to its end with every fan shown. */
  lemma CrowdedColdPaging(d: seq<Entry>, entries: seq<Entry>, now: int, size: nat, k: nat)
    requires Fills(d, entries) && 0 < size < |entries| && !Uncrowded(d, size)
    ensures var first := TablePage(entries, now, 0, size);
      !(EndsAfter(d, first, now, size, k) && ListsOnce(Gathered(d, first, now, size, k), MembersOf(entries)))
  {
    hide Sorted, ScoresOf, MembersOf, CompleteList, TablePage, Following, Gathered, OnlyOlder;
    var first := TablePage(entries, now, 0, size);
    var p := BoundaryListed(d, entries, size);
    TableFirst(entries, now, size);
    var g :| 0 <= g && g + size < |d| && d[g].score == d[g + size - 1].score;
    if d[p].score >= d[g].score {
      var q := CrowdHolds(d, first, p, now, size, g, k);
    } else {
      var q := StaysBelow(d, first, p, now, size, k);
      CrowdIsMissed(d, entries, p, size, g, Gathered(d, first, now, size, k));
    }
  }

  /** Paging from a cold cache shows every fan once and then says IsEnd. */
  ghost predicate ShowsAll(d: seq<Entry>, entries: seq<Entry>, now: int, size: nat, fans: set<int>) {
    var first := TablePage(entries, now, 0, size);
    exists k: nat :: EndsAfter(d, first, now, size, k) && ListsOnce(Gathered(d, first, now, size, k), fans)
  }

  /**
   From a cold cache, paging lists every fan once and then ends exactly when the table has no more
   than a page of fans, or no page size of fans share a follow time and newest by id and newest by
   time agree on the first page.
   */
  lemma ColdPagingIff(d: seq<Entry>, entries: seq<Entry>, now: int, size: nat)
    requires Fills(d, entries) && size > 0
    ensures ShowsAll(d, entries, now, size, MembersOf(entries)) <==>
      |entries| <= size || (Uncrowded(d, size) && SameFirst(entries, d, size))
  {
    hide Fills, TablePage, Gathered, Following, ListsOnce, SameFirst, Uncrowded, MembersOf;
    if |entries| <= size || Uncrowded(d, size) {
      var k := UncrowdedColdPaging(d, entries, now, size);
      OneEnd(d, TablePage(entries, now, 0, size), now, size, k);
    } else {
      forall k: nat
        ensures var first := TablePage(entries, now, 0, size);
          !(EndsAfter(d, first, now, size, k) && ListsOnce(Gathered(d, first, now, size, k), MembersOf(entries)))
      {
        CrowdedColdPaging(d, entries, now, size, k);
      }
    }
  }

  lemma OneEnd(d: seq<Entry>, first: Page, now: int, size: nat, k: nat)
    requires EndsAfter(d, first, now, size, k)
    ensures forall j: nat :: EndsAfter(d, first, now, size, j) ==> j == k
  {
    hide Following;
    forall j: nat | EndsAfter(d, first, now, size, j)
      ensures j == k
    {
      if j < k {
        assert false;
      }
    }
  }

  // ---- In a reachable state ----

  /** Rows with a higher id were made later. */
  ghost predicate TimesGrow(edges: FollowGraph.Edges, v: int) {
    forall e, f :: e in FollowGraph.ActiveTo(edges, v) && f in FollowGraph.ActiveTo(edges, v) ==>
      edges[e].id < edges[f].id ==> edges[e].created < edges[f].created
  }

  lemma FilledList(sets: Store, key: Key, entries: seq<Entry>, d: seq<Entry>)
    requires key !in sets && Distinct(entries) && 0 < |entries| < FollowGraph.CACHE_MAX
    requires Sorted(d) && ScoresOf(d) == Get(FollowGraph.AddAll(sets, key, FollowGraph.WithSentinel(entries)), key)
    requires forall i :: 0 <= i < |entries| ==> entries[i].score > 0 && entries[i].member > 0
    ensures Fills(d, entries)
  {
    hide ScoresOf, FollowGraph.AddAll;
    FollowGraph.AddAllLists(sets, key, entries);
    FollowGraph.AddAllLast(sets, key, entries, Entry(0, SENTINEL));
  }

  lemma FanEntriesOk(s: FollowGraph.State, v: int, rows: seq<(int, int)>)
    requires FollowGraph.Inv(s)
    requires FollowGraph.IsNewest(s.edges, FollowGraph.ActiveTo(s.edges, v), FollowGraph.CACHE_MAX, rows)
    ensures var entries := FollowGraph.FanEntries(s.edges, rows);
      && Distinct(entries)
      && (forall i :: 0 <= i < |entries| ==> entries[i].score > 0 && entries[i].member > 0)
      && MembersOf(entries) <= FollowGraph.Fans(s.edges, v)
      && (|rows| < FollowGraph.CACHE_MAX ==> MembersOf(entries) == FollowGraph.Fans(s.edges, v))
  {
    hide FollowGraph.Conserved, FollowGraph.ListsOk;
    var entries := FollowGraph.FanEntries(s.edges, rows);
    forall i | 0 <= i < |rows|
      ensures rows[i].1 == v && rows[i].0 > 0 && s.edges[rows[i]].created > 0 && s.edges[rows[i]].active
    {
      assert rows[i] in FollowGraph.ActiveTo(s.edges, v);
    }
    forall i, j | 0 <= i < j < |rows|
      ensures entries[i].member != entries[j].member
    {
      assert s.edges[rows[i]].id > s.edges[rows[j]].id;
    }
    forall k | k in FollowGraph.Fans(s.edges, v) && |rows| < FollowGraph.CACHE_MAX
      ensures k in MembersOf(entries)
    {
      assert (k, v) in FollowGraph.ActiveTo(s.edges, v);
      var i :| 0 <= i < |rows| && rows[i] == (k, v);
      assert entries[i].member == k;
    }
  }

  /** With the list gone, the newest rows are fewer than 1000, and d lists what their complete fill leaves. */
  ghost predicate JustFilled(s: FollowGraph.State, v: int, rows: seq<(int, int)>, d: seq<Entry>) {
    && FansKey(v) !in s.sets
    && FollowGraph.IsNewest(s.edges, FollowGraph.ActiveTo(s.edges, v), FollowGraph.CACHE_MAX, rows)
    && 0 < |rows| < FollowGraph.CACHE_MAX
    && Sorted(d)
    && ScoresOf(d) == Get(FollowGraph.Apply(s, FollowGraph.FillFans(v, rows, |rows| + 1)).sets, FansKey(v))
  }

  lemma FilledFans(s: FollowGraph.State, v: int, rows: seq<(int, int)>, d: seq<Entry>)
    requires FollowGraph.Inv(s) && JustFilled(s, v, rows, d)
    ensures Fills(d, FollowGraph.FanEntries(s.edges, rows))
    ensures MembersOf(FollowGraph.FanEntries(s.edges, rows)) == FollowGraph.Fans(s.edges, v)
  {
    hide FollowGraph.Inv, FollowGraph.AddAll, ScoresOf, Sorted, MembersOf;
    var entries := FollowGraph.FanEntries(s.edges, rows);
    FanEntriesOk(s, v, rows);
    var all := FollowGraph.WithSentinel(entries);
    assert all[..|rows| + 1] == all;
    FilledList(s.sets, FansKey(v), entries, d);
  }

  /**
   In any state a run of the follow service reaches, with the list gone and fewer than 1000 fans:
   the first response and the pages of the list it fills show exactly the fans, as many as the
   counter says, and then end, if and only if that condition holds.
   */
  lemma ColdPagingShowsTheFansIff(s: FollowGraph.State, v: int, rows: seq<(int, int)>, d: seq<Entry>,
                                  now: int, size: nat)
    requires FollowGraph.Inv(s)
    requires JustFilled(s, v, rows, d) && size > 0
    ensures var entries := FollowGraph.FanEntries(s.edges, rows);
      ShowsAll(d, entries, now, size, FollowGraph.Fans(s.edges, v)) <==>
        |rows| <= size || (Uncrowded(d, size) && SameFirst(entries, d, size))
    ensures |FollowGraph.Fans(s.edges, v)| == FollowGraph.CountOf(s.counts, v).fans
  {
    hide ShowsAll, Uncrowded, SameFirst, ScoresOf, Sorted, MembersOf, FollowGraph.AddAll;
    var entries := FollowGraph.FanEntries(s.edges, rows);
    FilledFans(s, v, rows, d);
    ColdPagingIff(d, entries, now, size);
    assert FollowGraph.CountOf(s.counts, v) ==
      FollowGraph.Count(|FollowGraph.Follows(s.edges, v)|, |FollowGraph.Fans(s.edges, v)|);
  }

  /** With times that grow with the ids, the filled list is the table in its own order. */
  lemma FilledInOrder(d: seq<Entry>, entries: seq<Entry>)
    requires Fills(d, entries) && forall i, j :: 0 <= i < j < |entries| ==> entries[i].score > entries[j].score
    ensures d == entries + [Entry(0, SENTINEL)]
  {
    hide Ordered, ScoresOf, MembersOf;
    var all := entries + [Entry(0, SENTINEL)];
    DescendingIsSorted(all);
    RealFans(entries);
    InsertMembers(entries, |entries|, Entry(0, SENTINEL), all);
    InsertValues(entries, |entries|, Entry(0, SENTINEL), all);
    ListingIsUnique(d, all);
  }

  /** So every fan is shown, as many as the counter says, when times grow with the ids and a page holds two fans. */
  lemma ColdPagingShowsTheFans(s: FollowGraph.State, v: int, rows: seq<(int, int)>, d: seq<Entry>,
                               now: int, size: nat) returns (k: nat)
    requires FollowGraph.Inv(s) && TimesGrow(s.edges, v)
    requires JustFilled(s, v, rows, d) && size >= 2
    ensures var first := TablePage(FollowGraph.FanEntries(s.edges, rows), now, 0, size);
      var all := Gathered(d, first, now, size, k);
      && EndsAfter(d, first, now, size, k)
      && MembersOf(all) == FollowGraph.Fans(s.edges, v)
      && |all| == FollowGraph.CountOf(s.counts, v).fans
  {
    hide TablePage, Gathered, EndsAfter, ScoresOf, Sorted, MembersOf, Uncrowded, SameFirst;
    hide FollowGraph.AddAll, FollowGraph.Inv, FollowGraph.Apply;
    var entries := FollowGraph.FanEntries(s.edges, rows);
    InOrderIsSameFirst(s, v, rows, d, size);
    ColdPagingShowsTheFansIff(s, v, rows, d, now, size);
    var first := TablePage(entries, now, 0, size);
    k :| EndsAfter(d, first, now, size, k) && ListsOnce(Gathered(d, first, now, size, k), FollowGraph.Fans(s.edges, v));
  }

  lemma InOrderIsSameFirst(s: FollowGraph.State, v: int, rows: seq<(int, int)>, d: seq<Entry>, size: nat)
    requires FollowGraph.Inv(s) && TimesGrow(s.edges, v)
    requires JustFilled(s, v, rows, d) && size >= 2
    ensures Uncrowded(d, size)
    ensures |rows| <= size || SameFirst(FollowGraph.FanEntries(s.edges, rows), d, size)
  {
    hide ScoresOf, Sorted, MembersOf, FollowGraph.AddAll, FollowGraph.Inv;
    var entries := FollowGraph.FanEntries(s.edges, rows);
    FilledFans(s, v, rows, d);
    forall i, j | 0 <= i < j < |entries|
      ensures entries[i].score > entries[j].score
    {
      assert rows[i] in FollowGraph.ActiveTo(s.edges, v) && rows[j] in FollowGraph.ActiveTo(s.edges, v);
    }
    FilledInOrder(d, entries);
    if |rows| > size {
      assert entries[..size] == d[..size];
    }
  }

  /** Four fans by id and by time: 1 and 2 followed in the same second, 1 with the higher id. */
  const BY_ID: seq<Entry> := [Entry(9, 7), Entry(5, 8), Entry(3, 1), Entry(3, 2)]
  const BY_TIME: seq<Entry> := [Entry(9, 7), Entry(5, 8), Entry(3, 2), Entry(3, 1), Entry(0, SENTINEL)]

  lemma TiedIsSorted()
    ensures Sorted(BY_TIME)
  {
    assert Above(BY_TIME[2], BY_TIME[3]) by {
      assert FormatInt(1) == "1" && FormatInt(2) == "2";
    }
    DescendingIsSorted(BY_TIME);
  }

  lemma TiedMembers()
    ensures MembersOf(BY_ID) == {7, 8, 1, 2}
    ensures MembersOf(BY_TIME) == {7, 8, 2, 1, SENTINEL}
  {
    assert BY_ID[0].member == 7 && BY_ID[1].member == 8 && BY_ID[2].member == 1 && BY_ID[3].member == 2;
    assert BY_TIME[0].member == 7 && BY_TIME[1].member == 8 && BY_TIME[2].member == 2 && BY_TIME[3].member == 1;
    assert BY_TIME[4].member == SENTINEL;
  }

  lemma TiedFills()
    ensures Fills(BY_TIME, BY_ID)
  {
    hide Ordered, MembersOf, ScoresOf;
    TiedIsSorted();
    TiedMembers();
    var m := ScoresOf(BY_ID);
    assert m[BY_ID[0].member] == 9 && m[BY_ID[1].member] == 5 && m[BY_ID[2].member] == 3 && m[BY_ID[3].member] == 3;
    ListsExactly(BY_TIME, m[SENTINEL := 0]);
  }

  /**
   Otherwise a fan can be missed: with pages of three, the table page ends with 1, and the list has
   2 above 1, where paging has already been.
   */
  lemma ColdPagingLosesAFan(now: int) returns (k: nat)
    ensures Fills(BY_TIME, BY_ID) && Uncrowded(BY_TIME, 3)
    ensures var first := TablePage(BY_ID, now, 0, 3);
      EndsAfter(BY_TIME, first, now, 3, k) &&
      !ListsOnce(Gathered(BY_TIME, first, now, 3, k), MembersOf(BY_ID))
  {
    hide Fills, TablePage, Gathered, EndsAfter, ListsOnce;
    TiedFills();
    k := UncrowdedColdPaging(BY_TIME, BY_ID, now, 3);
  }

  /** Three fans of one second, in the same order by id and in the list. */
  const SAME_SECOND: seq<Entry> := [Entry(5, 3), Entry(5, 2), Entry(5, 1)]
  const SAME_SECOND_LIST: seq<Entry> := [Entry(5, 3), Entry(5, 2), Entry(5, 1), Entry(0, SENTINEL)]

  lemma SameSecondFills()
    ensures Fills(SAME_SECOND_LIST, SAME_SECOND)
  {
    assert FormatInt(1) == "1" && FormatInt(2) == "2" && FormatInt(3) == "3";
    DescendingIsSorted(SAME_SECOND_LIST);
    hide Ordered, MembersOf, ScoresOf;
    assert SAME_SECOND_LIST == SAME_SECOND + [Entry(0, SENTINEL)];
    RealFans(SAME_SECOND);
    InsertMembers(SAME_SECOND, 3, Entry(0, SENTINEL), SAME_SECOND_LIST);
    InsertValues(SAME_SECOND, 3, Entry(0, SENTINEL), SAME_SECOND_LIST);
  }

  /** And paging can go on for ever, here in pages of two, with fan 1 still to come. */
  lemma ColdPagingStalls(now: int, k: nat)
    ensures Fills(SAME_SECOND_LIST, SAME_SECOND) && SameFirst(SAME_SECOND, SAME_SECOND_LIST, 2)
    ensures !Following(SAME_SECOND_LIST, TablePage(SAME_SECOND, now, 0, 2), now, 2, k).isEnd
  {
    hide Following, TablePage, Ordered, ScoresOf;
    SameSecondFills();
    assert SAME_SECOND[..2] == SAME_SECOND_LIST[..2];
    FilledIsComplete(SAME_SECOND_LIST, SAME_SECOND);
    TableFirst(SAME_SECOND, now, 2);
    var q := CrowdHolds(SAME_SECOND_LIST, TablePage(SAME_SECOND, now, 0, 2), 1, now, 2, 0, k);
  }
}
