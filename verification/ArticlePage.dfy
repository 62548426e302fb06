/**
 A page of articles served from a cached list: the ids come from the list, their rows are fetched in
 parallel and arrive in any order, and the page is what remains after sorting and cutting.
 */
module ArticlePage {
  import opened Decimal
  import opened SortedSets
  import opened RedisStore

  /** A fetched row: the article's id and the number its page is sorted by. */
  datatype Item = Item(id: int, key: int)

  datatype Page = Page(items: seq<Item>, cursor: int, articleId: int, isEnd: bool)

  ghost predicate Descending(s: seq<Item>) {
    forall i, j :: 0 <= i < j < |s| ==> s[i].key >= s[j].key
  }

  /** What sorting may make of the rows: ties come out in any order. */
  ghost predicate IsSorting(rows: seq<Item>, s: seq<Item>) {
    multiset(s) == multiset(rows) && Descending(s)
  }

  /** No two rows share a sort key. */
  ghost predicate KeysDiffer(rows: multiset<Item>) {
    forall x, y :: x in rows && y in rows && x.key == y.key ==> x == y
  }

  lemma SplitFirst(s: seq<Item>)
    requires s != []
    ensures multiset(s) == multiset{s[0]} + multiset(s[1..])
  {
    assert s == [s[0]] + s[1..];
  }

  lemma TailsAgree(s: seq<Item>, t: seq<Item>)
    requires s != [] && t != [] && s[0] == t[0] && multiset(s) == multiset(t)
    ensures multiset(s[1..]) == multiset(t[1..]) <= multiset(s)
  {
    SplitFirst(s);
    SplitFirst(t);
    assert multiset(s[1..]) == multiset(s) - multiset{s[0]};
    assert multiset(t[1..]) == multiset(t) - multiset{t[0]};
  }

  lemma TailDescending(s: seq<Item>)
    requires s != [] && Descending(s)
    ensures Descending(s[1..])
  {
  }

  lemma HeadIsHighest(s: seq<Item>, x: Item)
    requires Descending(s) && x in multiset(s)
    ensures s != [] && s[0] in multiset(s) && s[0].key >= x.key
  {
    var i :| 0 <= i < |s| && s[i] == x;
  }

  lemma FewerKeysDiffer(rows: multiset<Item>, fewer: multiset<Item>)
    requires KeysDiffer(rows) && fewer <= rows
    ensures KeysDiffer(fewer)
  {
  }

  lemma HeadsAgree(s: seq<Item>, t: seq<Item>)
    requires multiset(s) == multiset(t) && Descending(s) && Descending(t) && KeysDiffer(multiset(s)) && s != []
    ensures t != [] && s[0] == t[0]
  {
    HeadIsHighest(s, s[0]);
    HeadIsHighest(t, s[0]);
    HeadIsHighest(s, t[0]);
  }

  /** With distinct keys the sorting is unique, whatever order the rows arrived in. */
  lemma {:induction false} SortingIsUnique(s: seq<Item>, t: seq<Item>)
    requires multiset(s) == multiset(t) && Descending(s) && Descending(t) && KeysDiffer(multiset(s))
    ensures s == t
  {
    hide Descending, KeysDiffer;
    if s != [] {
      HeadsAgree(s, t);
      TailsAgree(s, t);
      TailDescending(s);
      TailDescending(t);
      FewerKeysDiffer(multiset(s), multiset(s[1..]));
      SortingIsUnique(s[1..], t[1..]);
      assert s == [s[0]] + s[1..] && t == [t[0]] + t[1..];
    } else {
      assert |t| == |multiset(t)| == 0;
    }
  }

  lemma NothingDescends()
    ensures Descending([])
  {
  }

  /** The place of a row behind all rows with its key or a higher one. */
  function RankOf(s: seq<Item>, x: Item): (i: nat)
    ensures i <= |s| && (forall j :: 0 <= j < i ==> s[j].key >= x.key) && (i < |s| ==> s[i].key < x.key)
  {
    if s == [] || s[0].key < x.key then 0 else 1 + RankOf(s[1..], x)
  }

  /** slices.SortFunc with the descending comparison. */
  method SortRows(rows: seq<Item>) returns (s: seq<Item>)
    ensures IsSorting(rows, s)
  {
    hide Descending;
    s := [];
    NothingDescends();
    for n := 0 to |rows|
      invariant Descending(s) && multiset(s) == multiset(rows[..n])
    {
      var i := RankOf(s, rows[n]);
      InsertRow(s, i, rows[n]);
      assert rows[..n + 1] == rows[..n] + [rows[n]];
      s := s[..i] + [rows[n]] + s[i..];
    }
    assert rows[..|rows|] == rows;
  }

  lemma InsertKeepsRows(s: seq<Item>, i: nat, x: Item)
    requires i <= |s|
    ensures multiset(s[..i] + [x] + s[i..]) == multiset(s) + multiset{x}
  {
    assert s == s[..i] + s[i..];
  }

  lemma InsertDescends(s: seq<Item>, i: nat, x: Item, r: seq<Item>)
    requires Descending(s) && i <= |s| == |r| - 1
    requires forall j :: 0 <= j < i ==> s[j].key >= x.key
    requires i < |s| ==> s[i].key < x.key
    requires forall j :: 0 <= j < i ==> r[j] == s[j]
    requires r[i] == x
    requires forall j :: i < j < |r| ==> r[j] == s[j - 1]
    ensures Descending(r)
  {
    assert forall j :: i <= j < |s| ==> s[j].key < x.key;
  }

  lemma InsertRow(s: seq<Item>, i: nat, x: Item)
    requires Descending(s) && i <= |s|
    requires forall j :: 0 <= j < i ==> s[j].key >= x.key
    requires i < |s| ==> s[i].key < x.key
    ensures Descending(s[..i] + [x] + s[i..])
    ensures multiset(s[..i] + [x] + s[i..]) == multiset(s) + multiset{x}
  {
    InsertKeepsRows(s, i, x);
    InsertDescends(s, i, x, s[..i] + [x] + s[i..]);
  }

  /** Where the item the client already has stands on the page, or 0. */
  function BoundaryIn(s: seq<Item>, boundary: Item, i: nat): (r: nat)
    requires i <= |s|
    ensures r == 0 || (i <= r < |s| && s[r] == boundary)
    ensures boundary in s[i..] <==> i <= r < |s| && s[r] == boundary
    decreases |s| - i
  {
    if i == |s| then 0
    else if s[i] == boundary then i
    else BoundaryIn(s, boundary, i + 1)
  }

  /** The response made of the sorted rows. */
  function Finish(s: seq<Item>, cursor: int, articleId: int, isEnd: bool): Page {
    if s == [] then Page([], 0, 0, isEnd)
    else
      var last := s[|s| - 1];
      Page(s[BoundaryIn(s, Item(articleId, cursor), 0)..], if last.key < 0 then 0 else last.key, last.id, isEnd)
  }

  /** The fetched part of a list says whether it ends with the sentinel. */
  predicate EndsList(fetched: seq<Entry>) {
    fetched != [] && fetched[|fetched| - 1].member == SENTINEL
  }

  /** Without ties, every completion order of the row fetch gives the same response. */
  lemma PageIgnoresFetchOrder(a: seq<Item>, b: seq<Item>, sa: seq<Item>, sb: seq<Item>,
                              cursor: int, articleId: int, isEnd: bool)
    requires multiset(a) == multiset(b) && KeysDiffer(multiset(a))
    requires IsSorting(a, sa) && IsSorting(b, sb)
    ensures Finish(sa, cursor, articleId, isEnd) == Finish(sb, cursor, articleId, isEnd)
  {
    SortingIsUnique(sa, sb);
  }

  /** And it needs that: the rows sort in one way only exactly when no two of them share a key. */
  lemma SortingIsUniqueIff(rows: seq<Item>)
    requires forall i, j :: 0 <= i < j < |rows| ==> rows[i] != rows[j]
    ensures (forall s, t :: IsSorting(rows, s) && IsSorting(rows, t) ==> s == t) <==> KeysDiffer(multiset(rows))
  {
    if KeysDiffer(multiset(rows)) {
      forall s, t
        ensures IsSorting(rows, s) && IsSorting(rows, t) ==> s == t
      {
        if IsSorting(rows, s) && IsSorting(rows, t) {
          SortingIsUnique(s, t);
        }
      }
    } else {
      var s, t := TwoSortings(rows);
    }
  }

  lemma {:induction false} SortingExists(rows: seq<Item>) returns (s: seq<Item>)
    ensures IsSorting(rows, s)
  {
    if rows == [] {
      s := [];
    } else {
      var n := |rows| - 1;
      var t := SortingExists(rows[..n]);
      var i := RankOf(t, rows[n]);
      InsertRow(t, i, rows[n]);
      assert rows == rows[..n] + [rows[n]];
      s := t[..i] + [rows[n]] + t[i..];
    }
  }

  lemma TwoSortings(rows: seq<Item>) returns (s: seq<Item>, t: seq<Item>)
    requires forall i, j :: 0 <= i < j < |rows| ==> rows[i] != rows[j]
    requires !KeysDiffer(multiset(rows))
    ensures IsSorting(rows, s) && IsSorting(rows, t) && s != t
  {
    s := SortingExists(rows);
    var x, y :| x in multiset(rows) && y in multiset(rows) && x.key == y.key && x != y;
    assert x in multiset(s) && y in multiset(s);
    var i :| 0 <= i < |s| && s[i] == x;
    var j :| 0 <= j < |s| && s[j] == y;
    t := SwapTie(s, i, j);
  }

  lemma SwapTie(s: seq<Item>, i: nat, j: nat) returns (t: seq<Item>)
    requires Descending(s) && i < |s| && j < |s| && s[i].key == s[j].key && s[i] != s[j]
    ensures multiset(t) == multiset(s) && Descending(t) && t != s
    ensures t == s[i := s[j]][j := s[i]]
  {
    t := s[i := s[j]][j := s[i]];
    assert t[i] == s[j] && t[j] == s[i];
    assert forall k :: 0 <= k < |s| ==> t[k].key == s[k].key;
  }

  /** The page is the slice of the list when the scores are those of the rows. */
  lemma PageIsSlice(fetched: seq<Entry>, arrived: seq<Item>, s: seq<Item>)
    requires Sorted(fetched)
    requires var slice := ItemsOf(fetched);
      multiset(arrived) == multiset(slice) && KeysDiffer(multiset(slice)) && IsSorting(arrived, s)
    ensures s == ItemsOf(fetched)
  {
    var slice := ItemsOf(fetched);
    forall i, j | 0 <= i < j < |slice|
      ensures slice[i].key >= slice[j].key
    {
      assert Above(fetched[i], fetched[j]);
    }
    SortingIsUnique(s, slice);
  }

  /** The fetched entries as rows, the sentinel left out. */
  function ItemsOf(fetched: seq<Entry>): (r: seq<Item>) {
    var kept := if EndsList(fetched) then fetched[..|fetched| - 1] else fetched;
    seq(|kept|, i requires 0 <= i < |kept| => Item(kept[i].member, kept[i].score))
  }

  // ---- The sentinel ----

  lemma SentinelTextIsLowest(id: int)
    requires id > 0
    ensures TextLess(SENTINEL, id)
  {
    FormatNatIsDigits(id);
    FormatNatIsDigits(1);
    assert FormatInt(SENTINEL)[0] == '-';
    assert IsDigit(FormatInt(id)[0]);
  }

  /** Even among articles without a like, "-1" with score 0 stands last. */
  lemma SentinelIsLast(d: seq<Entry>)
    requires Sorted(d)
    requires forall i :: 0 <= i < |d| ==> d[i].score >= 0 && (d[i].member == SENTINEL || d[i].member > 0)
    requires Entry(0, SENTINEL) in d
    ensures d[|d| - 1] == Entry(0, SENTINEL)
  {
    var i :| 0 <= i < |d| && d[i] == Entry(0, SENTINEL);
    forall j | 0 <= j < |d| && j != i
      ensures Above(d[j], d[i])
    {
      assert d[j].member != d[i].member;
      if d[j].score == 0 {
        SentinelTextIsLowest(d[j].member);
      }
    }
  }

  /** So a page says isEnd exactly when it reached the end of the list. */
  lemma EndMeansEnd(d: seq<Entry>, cursor: int, size: nat)
    requires Sorted(d) && size > 0 && cursor >= 0
    requires forall i :: 0 <= i < |d| ==> d[i].score >= 0 && (d[i].member == SENTINEL || d[i].member > 0)
    requires Entry(0, SENTINEL) in d
    ensures Range(d, cursor, size) != []
    ensures EndsList(Range(d, cursor, size)) <==> From(d, cursor) + size >= |d|
  {
    hide From, Above;
    SentinelIsLast(d);
    var g, r := From(d, cursor), Range(d, cursor, size);
    NoNegativeScore(d);
    assert d[|d| - 1].score <= cursor;
    assert r == d[g..g + Min(size, |d| - g)];
    assert r[|r| - 1] == d[g + |r| - 1];
  }

  lemma {:induction false} NoNegativeScore(d: seq<Entry>)
    requires forall i :: 0 <= i < |d| ==> d[i].score >= 0
    ensures From(d, -1) == |d|
  {
    if d != [] {
      NoNegativeScore(d[1..]);
    }
  }
}
