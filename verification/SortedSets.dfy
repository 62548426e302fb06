/**
 Redis sorted sets whose members are ids. A member's text is the decimal text of its id, and two
 entries of equal score are ordered by that text, byte by byte. What a set contains is a map from
 member to score; a listing is its entries in ZREVRANGE order, the highest first.
 */
module SortedSets {
  import opened Decimal

  datatype Entry = Entry(score: int, member: int)

  type Scores = map<int, int>

  /** The member that marks a set as complete. */
  const SENTINEL: int := -1

  /** Byte order of texts, as memcmp followed by the length. */
  predicate LexLess(a: string, b: string) {
    if b == [] then false
    else if a == [] then true
    else a[0] < b[0] || (a[0] == b[0] && LexLess(a[1..], b[1..]))
  }

  predicate TextLess(a: int, b: int) {
    LexLess(FormatInt(a), FormatInt(b))
  }

  /** x comes before y in ZREVRANGE order. */
  predicate Above(x: Entry, y: Entry) {
    x.score > y.score || (x.score == y.score && TextLess(y.member, x.member))
  }

  lemma {:induction false} LexTransitive(a: string, b: string, c: string)
    requires LexLess(a, b) && LexLess(b, c)
    ensures LexLess(a, c)
  {
    if a != [] && a[0] == b[0] == c[0] {
      LexTransitive(a[1..], b[1..], c[1..]);
    }
  }

  lemma {:induction false} LexTotal(a: string, b: string)
    ensures LexLess(a, b) || a == b || LexLess(b, a)
    ensures !(LexLess(a, b) && LexLess(b, a))
    ensures !LexLess(a, a)
  {
    if a != [] && b != [] && a[0] == b[0] {
      LexTotal(a[1..], b[1..]);
      assert a[1..] == b[1..] ==> a == [a[0]] + a[1..] == b;
    }
    if a != [] {
      LexTotal(a[1..], a[1..]);
    }
  }

  /** ZREVRANGE order is a strict total order on entries. */
  lemma AboveIsStrictOrder(x: Entry, y: Entry, z: Entry)
    ensures !(Above(x, y) && Above(y, x)) && !Above(x, x)
    ensures x != y ==> Above(x, y) || Above(y, x)
    ensures Above(x, y) && Above(y, z) ==> Above(x, z)
  {
    LexTotal(FormatInt(x.member), FormatInt(y.member));
    LexTotal(FormatInt(x.member), FormatInt(x.member));
    if FormatInt(x.member) == FormatInt(y.member) {
      FormatInjective(x.member, y.member);
    }
    if TextLess(y.member, x.member) && TextLess(z.member, y.member) {
      LexTransitive(FormatInt(z.member), FormatInt(y.member), FormatInt(x.member));
    }
  }

  ghost predicate Distinct(d: seq<Entry>) {
    forall i, j :: 0 <= i < j < |d| ==> d[i].member != d[j].member
  }

  ghost predicate Ordered(d: seq<Entry>) {
    forall i, j :: 0 <= i < |d| && 0 <= j < |d| ==> (Above(d[i], d[j]) <==> i < j)
  }

  /** A listing: in ZREVRANGE order and without a member twice. */
  ghost predicate Sorted(d: seq<Entry>) {
    Distinct(d) && Ordered(d)
  }

  ghost function MembersOf(d: seq<Entry>): set<int> {
    set i | 0 <= i < |d| :: d[i].member
  }

  /** The score of a member of a listing. */
  ghost function ScoreIn(d: seq<Entry>, k: int): int
    requires k in MembersOf(d)
  {
    var i :| 0 <= i < |d| && d[i].member == k;
    d[i].score
  }

  /** The set that a sequence of distinct members lists. */
  ghost function ScoresOf(d: seq<Entry>): (m: Scores)
    requires Distinct(d)
    ensures m.Keys == MembersOf(d)
    ensures forall i :: 0 <= i < |d| ==> d[i].member in m && m[d[i].member] == d[i].score
  {
    map k | k in MembersOf(d) :: ScoreIn(d, k)
  }

  lemma {:induction false} MembersOfSize(d: seq<Entry>)
    requires Distinct(d)
    ensures |MembersOf(d)| == |d|
  {
    if d != [] {
      var n := |d| - 1;
      MembersOfSize(d[..n]);
      assert MembersOf(d) == MembersOf(d[..n]) + {d[n].member};
    }
  }

  /** The members of a set that precede an entry. */
  ghost function Higher(m: Scores, e: Entry): set<int> {
    set k | k in m && Above(Entry(m[k], k), e)
  }

  /** The n highest entries of a set. */
  ghost function Top(m: Scores, n: nat): Scores {
    map k | k in m && |Higher(m, Entry(m[k], k))| < n :: m[k]
  }

  lemma HigherIsPrefix(d: seq<Entry>, i: nat)
    requires Sorted(d) && i < |d|
    ensures Higher(ScoresOf(d), d[i]) == MembersOf(d[..i])
  {
    var m := ScoresOf(d);
    forall k | k in m
      ensures k in Higher(m, d[i]) <==> k in MembersOf(d[..i])
    {
      var j :| 0 <= j < |d| && d[j].member == k;
      assert Entry(m[k], k) == d[j];
      assert j < i ==> d[..i][j] == d[j];
    }
  }

  /** An entry has as many entries above it as its index says. */
  lemma RankIsIndex(d: seq<Entry>, i: nat)
    requires Sorted(d) && i < |d|
    ensures |Higher(ScoresOf(d), d[i])| == i
  {
    HigherIsPrefix(d, i);
    MembersOfSize(d[..i]);
  }

  lemma ListsExactly(d: seq<Entry>, m: Scores)
    requires Distinct(d) && MembersOf(d) == m.Keys
    requires forall i :: 0 <= i < |d| ==> d[i].member in m && m[d[i].member] == d[i].score
    ensures ScoresOf(d) == m
  {
  }

  function Min(a: nat, b: nat): nat {
    if a < b then a else b
  }

  lemma InTop(d: seq<Entry>, n: nat, k: int)
    requires Sorted(d) && k in ScoresOf(d)
    ensures k in Top(ScoresOf(d), n) <==> k in MembersOf(d[..Min(n, |d|)])
  {
    var i :| 0 <= i < |d| && d[i].member == k;
    assert Entry(ScoresOf(d)[k], k) == d[i];
    RankIsIndex(d, i);
    var r := d[..Min(n, |d|)];
    assert i < |r| ==> r[i] == d[i];
  }

  lemma PrefixSorted(d: seq<Entry>, n: nat)
    requires Sorted(d) && n <= |d|
    ensures Sorted(d[..n]) && MembersOf(d[..n]) <= MembersOf(d)
  {
    forall k | k in MembersOf(d[..n])
      ensures k in MembersOf(d)
    {
      var i :| 0 <= i < n && d[..n][i].member == k;
      assert d[i].member == k;
    }
  }

  /** Cutting the listing after n entries leaves exactly the n highest entries. */
  lemma TopIsPrefix(d: seq<Entry>, n: nat)
    requires Sorted(d)
    ensures Sorted(d[..Min(n, |d|)])
    ensures ScoresOf(d[..Min(n, |d|)]) == Top(ScoresOf(d), n)
  {
    var r, t := d[..Min(n, |d|)], Top(ScoresOf(d), n);
    PrefixSorted(d, |r|);
    assert MembersOf(r) == t.Keys by {
      forall k | k in ScoresOf(d)
        ensures k in t <==> k in MembersOf(r)
      {
        InTop(d, n, k);
      }
    }
    assert forall i :: 0 <= i < |r| ==> r[i] == d[i] && r[i].member in MembersOf(r);
    ListsExactly(r, t);
  }

  lemma DropSorted(d: seq<Entry>, i: nat, r: seq<Entry>)
    requires Sorted(d) && i < |d| == |r| + 1
    requires forall j :: 0 <= j < i ==> r[j] == d[j]
    requires forall j :: i <= j < |r| ==> r[j] == d[j + 1]
    ensures Sorted(r)
  {
  }

  lemma DropMembers(d: seq<Entry>, i: nat, r: seq<Entry>)
    requires Distinct(d) && i < |d| == |r| + 1
    requires forall j :: 0 <= j < i ==> r[j] == d[j]
    requires forall j :: i <= j < |r| ==> r[j] == d[j + 1]
    ensures MembersOf(r) == MembersOf(d) - {d[i].member}
  {
    forall k | k in MembersOf(d) && k != d[i].member
      ensures k in MembersOf(r)
    {
      var j :| 0 <= j < |d| && d[j].member == k;
      assert r[if j < i then j else j - 1] == d[j];
    }
  }

  /** Taking one member out of a listing. */
  lemma DropEntry(d: seq<Entry>, i: nat)
    requires Sorted(d) && i < |d|
    ensures Sorted(d[..i] + d[i + 1..])
    ensures ScoresOf(d[..i] + d[i + 1..]) == ScoresOf(d) - {d[i].member}
  {
    var r := d[..i] + d[i + 1..];
    DropSorted(d, i, r);
    DropMembers(d, i, r);
    ListsExactly(r, ScoresOf(d) - {d[i].member});
  }

  lemma InsertOrdered(d: seq<Entry>, i: nat, e: Entry, r: seq<Entry>)
    requires Ordered(d) && i <= |d| == |r| - 1 && !Above(e, e)
    requires forall j :: 0 <= j < |d| ==> (Above(d[j], e) <==> j < i) && (Above(e, d[j]) <==> i <= j)
    requires forall j :: 0 <= j < i ==> r[j] == d[j]
    requires r[i] == e
    requires forall j :: i < j < |r| ==> r[j] == d[j - 1]
    ensures Ordered(r)
  {
    forall p, q | 0 <= p < |r| && 0 <= q < |r|
      ensures Above(r[p], r[q]) <==> p < q
    {
      var dp, dq := if p < i then p else p - 1, if q < i then q else q - 1;
      assert p != i ==> r[p] == d[dp];
      assert q != i ==> r[q] == d[dq];
    }
  }

  lemma InsertDistinct(d: seq<Entry>, i: nat, e: Entry, r: seq<Entry>)
    requires Distinct(d) && i <= |d| == |r| - 1 && e.member !in MembersOf(d)
    requires forall j :: 0 <= j < i ==> r[j] == d[j]
    requires r[i] == e
    requires forall j :: i < j < |r| ==> r[j] == d[j - 1]
    ensures Distinct(r)
  {
    assert forall j :: 0 <= j < |d| ==> d[j].member in MembersOf(d);
  }

  lemma InsertMembers(d: seq<Entry>, i: nat, e: Entry, r: seq<Entry>)
    requires i <= |d| == |r| - 1
    requires forall j :: 0 <= j < i ==> r[j] == d[j]
    requires r[i] == e
    requires forall j :: i < j < |r| ==> r[j] == d[j - 1]
    ensures MembersOf(r) == MembersOf(d) + {e.member}
  {
    forall k | k in MembersOf(d)
      ensures k in MembersOf(r)
    {
      var j :| 0 <= j < |d| && d[j].member == k;
      assert r[if j < i then j else j + 1] == d[j];
    }
  }

  lemma InsertValues(d: seq<Entry>, i: nat, e: Entry, r: seq<Entry>)
    requires Distinct(d) && Distinct(r) && i <= |d| == |r| - 1
    requires e.member !in MembersOf(d) && MembersOf(r) == MembersOf(d) + {e.member}
    requires forall j :: 0 <= j < i ==> r[j] == d[j]
    requires r[i] == e
    requires forall j :: i < j < |r| ==> r[j] == d[j - 1]
    ensures ScoresOf(r) == ScoresOf(d)[e.member := e.score]
  {
    ListsExactly(r, ScoresOf(d)[e.member := e.score]);
  }

  /** Putting a new member at its place in a listing. */
  lemma InsertEntry(d: seq<Entry>, i: nat, e: Entry)
    requires Sorted(d) && i <= |d|
    requires e.member !in MembersOf(d)
    requires forall j :: 0 <= j < |d| ==> (Above(d[j], e) <==> j < i)
    ensures Sorted(d[..i] + [e] + d[i..])
    ensures ScoresOf(d[..i] + [e] + d[i..]) == ScoresOf(d)[e.member := e.score]
  {
    var r := d[..i] + [e] + d[i..];
    forall j | 0 <= j < |d|
      ensures Above(e, d[j]) <==> i <= j
    {
      assert d[j].member in MembersOf(d);
      AboveIsStrictOrder(e, d[j], e);
    }
    AboveIsStrictOrder(e, e, e);
    InsertOrdered(d, i, e, r);
    InsertDistinct(d, i, e, r);
    InsertMembers(d, i, e, r);
    InsertValues(d, i, e, r);
  }

  /** The place of an entry behind all entries above it. */
  function PlaceOf(d: seq<Entry>, e: Entry): (i: nat)
    ensures i <= |d|
    ensures forall j :: 0 <= j < i ==> Above(d[j], e)
    ensures i < |d| ==> !Above(d[i], e)
  {
    if d == [] || !Above(d[0], e) then 0 else 1 + PlaceOf(d[1..], e)
  }

  lemma PlaceSplits(d: seq<Entry>, e: Entry)
    requires Ordered(d)
    ensures forall j :: 0 <= j < |d| ==> (Above(d[j], e) <==> j < PlaceOf(d, e))
  {
    hide Above;
    var i := PlaceOf(d, e);
    forall j | i < j < |d|
      ensures !Above(d[j], e)
    {
      AboveIsStrictOrder(d[i], d[j], e);
    }
  }

  lemma EmptyIsSorted()
    ensures Sorted([])
  {
  }

  /** Every set has a listing. */
  lemma {:induction false} ListingExists(m: Scores) returns (d: seq<Entry>)
    ensures Sorted(d) && ScoresOf(d) == m
  {
    hide Above, PlaceOf, Ordered;
    EmptyIsSorted();
    if k :| k in m {
      var rest := ListingExists(m - {k});
      var i := PlaceOf(rest, Entry(m[k], k));
      PlaceSplits(rest, Entry(m[k], k));
      InsertEntry(rest, i, Entry(m[k], k));
      assert (m - {k})[k := m[k]] == m;
      d := rest[..i] + [Entry(m[k], k)] + rest[i..];
    } else {
      d := [];
      assert forall k :: k !in m;
      ListsExactly(d, m);
    }
  }

  /** A set has one listing. */
  lemma ListingIsUnique(a: seq<Entry>, b: seq<Entry>)
    requires Sorted(a) && Sorted(b) && ScoresOf(a) == ScoresOf(b)
    ensures a == b
  {
    hide Ordered;
    MembersOfSize(a);
    MembersOfSize(b);
    forall i | 0 <= i < |a|
      ensures a[i] == b[i]
    {
      assert a[i].member in ScoresOf(b);
      var j :| 0 <= j < |b| && b[j].member == a[i].member;
      RankIsIndex(a, i);
      RankIsIndex(b, j);
    }
  }

  lemma DescendingIsSorted(d: seq<Entry>)
    requires Distinct(d) && forall i, j :: 0 <= i < j < |d| ==> Above(d[i], d[j])
    ensures Sorted(d)
  {
    hide Above;
    forall i, j | 0 <= i < |d| && 0 <= j < |d|
      ensures Above(d[i], d[j]) <==> i < j
    {
      AboveIsStrictOrder(d[i], d[j], d[i]);
    }
  }

  lemma {:induction false} SubsetSize<T>(a: set<T>, b: set<T>)
    requires a <= b
    ensures |a| <= |b|
    ensures |a| == |b| ==> a == b
  {
    if a != {} {
      var x :| x in a;
      SubsetSize(a - {x}, b - {x});
    }
  }

  /** Top keeps as many entries as allowed, and every entry it keeps precedes every entry it drops. */
  lemma TopIsHighest(m: Scores, n: nat)
    ensures |Top(m, n)| == Min(n, |m|)
    ensures forall j, k :: j in Top(m, n) && k in m && k !in Top(m, n) ==> Above(Entry(m[j], j), Entry(m[k], k))
  {
    var d := ListingExists(m);
    TopIsPrefix(d, n);
    MembersOfSize(d);
    MembersOfSize(d[..Min(n, |d|)]);
    assert |m| == |m.Keys| && |Top(m, n)| == |Top(m, n).Keys|;
    forall j, k | j in Top(m, n) && k in m && k !in Top(m, n)
      ensures Above(Entry(m[j], j), Entry(m[k], k))
    {
      var ej, ek := Entry(m[j], j), Entry(m[k], k);
      if !Above(ej, ek) {
        AboveIsStrictOrder(ek, ej, ek);
        forall h | h in Higher(m, ek)
          ensures h in Higher(m, ej)
        {
          AboveIsStrictOrder(Entry(m[h], h), ek, ej);
        }
        SubsetSize(Higher(m, ek), Higher(m, ej));
      }
    }
  }
}
