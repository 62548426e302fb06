/** The part of Redis the services use: named sorted sets. A set without members does not exist. */
module RedisStore {
  import opened SortedSets

  /** biz#user#follow#u, biz#user#fans#u and biz#articles#author#sortType. */
  datatype Key = FollowKey(user: int) | FansKey(user: int) | ArticlesKey(author: int, sortType: int)

  /** What the sets contain. */
  type Store = map<Key, Scores>

  ghost function Get(st: Store, key: Key): Scores {
    if key in st then st[key] else map[]
  }

  ghost function Put(st: Store, key: Key, m: Scores): Store {
    if m == map[] then st - {key} else st[key := m]
  }

  ghost predicate NoEmptySet(st: Store) {
    forall key :: key in st ==> st[key] != map[]
  }

  /** ZADD key score member. */
  ghost function Added(st: Store, key: Key, score: int, member: int): Store {
    Put(st, key, Get(st, key)[member := score])
  }

  /** ZREM key member. */
  ghost function Removed(st: Store, key: Key, member: int): Store {
    Put(st, key, Get(st, key) - {member})
  }

  /** ZREMRANGEBYRANK key 0 -(n+1): all but the n highest entries go. */
  ghost function Trimmed(st: Store, key: Key, n: nat): Store {
    Put(st, key, Top(Get(st, key), n))
  }

  lemma AddedMeans(st: Store, key: Key, score: int, member: int)
    ensures var after := Added(st, key, score, member);
      && Put(st, key, Get(st, key)[member := score]) == after
      && key in after && after[key] == Get(st, key)[member := score]
      && forall other :: other != key ==> Get(after, other) == Get(st, other)
  {
    assert member in Get(st, key)[member := score];
  }

  lemma RemovedMeans(st: Store, key: Key, member: int)
    ensures var after := Removed(st, key, member);
      && Put(st, key, Get(st, key) - {member}) == after
      && Get(after, key) == Get(st, key) - {member}
      && forall other :: other != key ==> Get(after, other) == Get(st, other)
  {
  }

  /** The first place in a listing whose score is at most max. */
  function From(d: seq<Entry>, max: int): (i: nat)
    ensures i <= |d|
    ensures forall j :: 0 <= j < i ==> d[j].score > max
    ensures i < |d| ==> d[i].score <= max
  {
    if d == [] || d[0].score <= max then 0 else 1 + From(d[1..], max)
  }

  /** ZREVRANGEBYSCORE key max 0 LIMIT 0 size, on the listing of the set. */
  function Range(d: seq<Entry>, max: int, size: nat): seq<Entry> {
    var start := From(d, max);
    var stop := From(d, -1);
    if start < stop then d[start..start + Min(size, stop - start)] else []
  }

  /** It is the entries with scores from 0 to max, the highest first and at most size of them. */
  ghost predicate IsRange(d: seq<Entry>, max: int, size: nat, page: seq<Entry>) {
    && |page| <= size
    && (forall e :: e in page ==> e in d && 0 <= e.score <= max)
    && (forall i, j :: 0 <= i < j < |page| ==> Above(page[i], page[j]))
    && (forall e :: e in d && 0 <= e.score <= max && e !in page ==>
          |page| == size && forall i :: 0 <= i < |page| ==> Above(page[i], e))
  }

  lemma RangeIs(d: seq<Entry>, max: int, size: nat)
    requires Sorted(d)
    ensures IsRange(d, max, size, Range(d, max, size))
  {
    hide Above, From;
    var page, g, stop := Range(d, max, size), From(d, max), From(d, -1);
    forall i | 0 <= i < |d|
      ensures d[i].score <= max <==> i >= g
      ensures d[i].score >= 0 <==> i < stop
    {
      Descends(d, g, i);
      Descends(d, stop, i);
    }
    assert forall i :: 0 <= i < |page| ==> page[i] == d[g + i];
    forall e | e in d && 0 <= e.score <= max && e !in page
      ensures |page| == size && forall i :: 0 <= i < |page| ==> Above(page[i], e)
    {
      var k :| 0 <= k < |d| && d[k] == e;
      PieceHas(d, g, page, k);
    }
  }

  lemma PieceHas(d: seq<Entry>, g: nat, page: seq<Entry>, k: nat)
    requires g + |page| <= |d| && forall i :: 0 <= i < |page| ==> page[i] == d[g + i]
    ensures g <= k < g + |page| ==> d[k] in page
  {
    if g <= k < g + |page| {
      assert page[k - g] == d[k];
    }
  }

  lemma Descends(d: seq<Entry>, i: nat, j: nat)
    requires Sorted(d) && i <= |d| && j < |d|
    ensures i <= j && i < |d| ==> d[i].score >= d[j].score
  {
    if i < j {
      assert i < |d| ==> Above(d[i], d[j]);
    }
  }

  type Zsets = map<Key, seq<Entry>>

  ghost predicate AllListed(zs: Zsets) {
    forall key :: key in zs ==> zs[key] != [] && Sorted(zs[key])
  }

  ghost function ViewOf(zs: Zsets): Store
    requires AllListed(zs)
  {
    map key | key in zs :: ScoresOf(zs[key])
  }

  lemma ViewWithout(zs: Zsets, key: Key)
    requires AllListed(zs)
    ensures AllListed(zs - {key}) && ViewOf(zs - {key}) == ViewOf(zs) - {key}
  {
  }

  lemma ViewWith(zs: Zsets, key: Key, d: seq<Entry>)
    requires AllListed(zs) && d != [] && Sorted(d)
    ensures AllListed(zs[key := d]) && ViewOf(zs[key := d]) == ViewOf(zs)[key := ScoresOf(d)]
    ensures ScoresOf(d) != map[]
  {
    assert d[0].member in ScoresOf(d);
  }

  method FindMember(d: seq<Entry>, member: int) returns (i: nat)
    ensures i <= |d| && (i == |d| <==> member !in MembersOf(d))
    ensures i < |d| ==> d[i].member == member
  {
    i := 0;
    while i < |d| && d[i].member != member
      invariant i <= |d|
      invariant forall j :: 0 <= j < i ==> d[j].member != member
    {
      i := i + 1;
    }
  }

  method Without(d: seq<Entry>, member: int) returns (r: seq<Entry>)
    requires Sorted(d)
    ensures Sorted(r) && ScoresOf(r) == ScoresOf(d) - {member}
  {
    var i := FindMember(d, member);
    if i < |d| {
      DropEntry(d, i);
      r := d[..i] + d[i + 1..];
    } else {
      r := d;
    }
  }

  method With(d: seq<Entry>, score: int, member: int) returns (r: seq<Entry>)
    requires Sorted(d)
    ensures Sorted(r) && ScoresOf(r) == ScoresOf(d)[member := score]
  {
    hide Ordered, Above, PlaceOf;
    var rest := Without(d, member);
    var e := Entry(score, member);
    var i := PlaceOf(rest, e);
    PlaceSplits(rest, e);
    InsertEntry(rest, i, e);
    r := rest[..i] + [e] + rest[i..];
  }

  /**
   ZREMRANGEBYRANK 0 stop. Ranks count from the lowest entry, so the listing loses its end; a
   negative stop counts back from the highest entry, and one before rank 0 removes nothing.
   */
  method CutRanks(d: seq<Entry>, stop: int) returns (r: seq<Entry>)
    requires Sorted(d) && stop < 0
    ensures Sorted(r) && ScoresOf(r) == Top(ScoresOf(d), -stop - 1)
  {
    hide Ordered, Top;
    var last := |d| + stop;
    var kept := if last < 0 then |d| else |d| - (last + 1);
    assert kept == Min(-stop - 1, |d|);
    TopIsPrefix(d, -stop - 1);
    r := d[..kept];
  }

  class Redis {
    /** The listing of every existing set. */
    var zsets: map<Key, seq<Entry>>

    ghost predicate Valid()
      reads this
    {
      AllListed(zsets)
    }

    ghost function View(): Store
      requires Valid()
      reads this
    {
      ViewOf(zsets)
    }

    function Listing(key: Key): seq<Entry>
      reads this
    {
      if key in zsets then zsets[key] else []
    }

    lemma ListingContents(key: Key)
      requires Valid()
      ensures Sorted(Listing(key)) && ScoresOf(Listing(key)) == Get(View(), key)
      ensures key in View() ==> View()[key] != map[]
    {
      if key in zsets {
        assert zsets[key][0].member in ScoresOf(zsets[key]);
      }
    }

    constructor ()
      ensures Valid() && View() == map[]
    {
      zsets := map[];
    }

    method SetListing(key: Key, d: seq<Entry>)
      requires Valid() && Sorted(d)
      modifies this
      ensures Valid()
      ensures View() == Put(old(View()), key, ScoresOf(d))
      ensures Listing(key) == d
    {
      if d == [] {
        ViewWithout(zsets, key);
        zsets := zsets - {key};
      } else {
        ViewWith(zsets, key, d);
        zsets := zsets[key := d];
      }
    }

    method Exists(key: Key) returns (found: bool)
      requires Valid()
      ensures found == (key in View())
    {
      found := key in zsets;
    }

    method Zrem(key: Key, member: int)
      requires Valid()
      modifies this
      ensures Valid()
      ensures View() == Removed(old(View()), key, member)
      ensures Get(View(), key) == Get(old(View()), key) - {member}
      ensures forall other :: other != key ==> Get(View(), other) == Get(old(View()), other)
    {
      ListingContents(key);
      RemovedMeans(View(), key, member);
      hide Removed, Get;
      var r := Without(Listing(key), member);
      SetListing(key, r);
    }

    method Zadd(key: Key, score: int, member: int)
      requires Valid()
      modifies this
      ensures Valid()
      ensures View() == Added(old(View()), key, score, member)
      ensures key in View() && View()[key] == Get(old(View()), key)[member := score]
      ensures forall other :: other != key ==> Get(View(), other) == Get(old(View()), other)
    {
      ListingContents(key);
      AddedMeans(View(), key, score, member);
      hide Added, Get;
      var r := With(Listing(key), score, member);
      SetListing(key, r);
    }

    /** ZREMRANGEBYRANK key 0 stop, for the negative stop both callers pass. */
    method ZremRangeByRank(key: Key, stop: int)
      requires Valid() && stop < 0
      modifies this
      ensures Valid()
      ensures View() == Trimmed(old(View()), key, -stop - 1)
    {
      ListingContents(key);
      var r := CutRanks(Listing(key), stop);
      SetListing(key, r);
    }

    /** ZREVRANGEBYSCORE key max 0 WITHSCORES LIMIT 0 size. */
    method ZrevRangeByScore(key: Key, max: int, size: nat) returns (page: seq<Entry>)
      requires Valid()
      ensures page == Range(Listing(key), max, size) && IsRange(Listing(key), max, size, page)
    {
      ListingContents(key);
      RangeIs(Listing(key), max, size);
      page := Range(Listing(key), max, size);
    }

    /** The key runs out of its time to live. */
    method Expire(key: Key)
      requires Valid()
      modifies this
      ensures Valid()
      ensures View() == old(View()) - {key}
    {
      ViewWithout(zsets, key);
      zsets := zsets - {key};
    }
  }
}
