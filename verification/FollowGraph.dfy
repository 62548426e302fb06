/**
 What Follow, UnFollow, a cache fill and a key expiry do to the follow table, the counter table
 and the cached lists, and what every run of them keeps.
 */
module FollowGraph {
  import opened SortedSets
  import opened RedisStore

  const CACHE_MAX: nat := 1000

  /** A row of the follow table; active is follow_status 1, inactive is 2. */
  datatype Row = Row(id: int, active: bool, created: int)

  /** The follow table by its unique key (user_id, followed_user_id). */
  type Edges = map<(int, int), Row>

  datatype Count = Count(follows: int, fans: int)

  type Counts = map<int, Count>

  datatype State = State(edges: Edges, nextId: int, counts: Counts, sets: Store)

  datatype Error = FollowUserIdEmpty | FollowedUserIdEmpty | CannotFollowSelf | UserIdEmpty | DbError

  datatype Outcome = Ok | Failed(error: Error)

  /** The readings of the clock during one Follow: for the row and for the two cached lists. */
  datatype Clock = Clock(created: int, followedAt: int, fannedAt: int)

  ghost function Active(edges: Edges): set<(int, int)> {
    set e | e in edges && edges[e].active
  }

  /** Whom u follows. */
  ghost function Follows(edges: Edges, u: int): set<int> {
    set e | e in edges && edges[e].active && e.0 == u :: e.1
  }

  /** Who follows v. */
  ghost function Fans(edges: Edges, v: int): set<int> {
    set e | e in edges && edges[e].active && e.1 == v :: e.0
  }

  function CountOf(counts: Counts, u: int): Count {
    if u in counts then counts[u] else Count(0, 0)
  }

  /** INSERT ... ON DUPLICATE KEY UPDATE follow_count = follow_count + 1, and the guarded decrement. */
  function IncrFollows(counts: Counts, u: int): Counts {
    var c := CountOf(counts, u);
    counts[u := c.(follows := c.follows + 1)]
  }

  function IncrFans(counts: Counts, u: int): Counts {
    var c := CountOf(counts, u);
    counts[u := c.(fans := c.fans + 1)]
  }

  function DecrFollows(counts: Counts, u: int): Counts {
    if u in counts && counts[u].follows > 0
    then counts[u := counts[u].(follows := counts[u].follows - 1)]
    else counts
  }

  function DecrFans(counts: Counts, u: int): Counts {
    if u in counts && counts[u].fans > 0
    then counts[u := counts[u].(fans := counts[u].fans - 1)]
    else counts
  }

  /** ZADD and trim, only into a list that exists. */
  ghost function AddToList(sets: Store, key: Key, score: int, member: int): Store {
    if key in sets then Trimmed(Added(sets, key, score, member), key, CACHE_MAX) else sets
  }

  ghost function Follow(s: State, u: int, v: int, clock: Clock): (State, Outcome) {
    if u == 0 then (s, Failed(FollowUserIdEmpty))
    else if v == 0 then (s, Failed(FollowedUserIdEmpty))
    else if u == v then (s, Failed(CannotFollowSelf))
    else if (u, v) in s.edges && s.edges[(u, v)].active then (s, Ok)
    else if (u, v) !in s.edges && (u < 0 || v < 0) then (s, Failed(DbError))
    else
      var known := (u, v) in s.edges;
      var row := if known then s.edges[(u, v)].(active := true) else Row(s.nextId, true, clock.created);
      (State(s.edges[(u, v) := row],
             if known then s.nextId else s.nextId + 1,
             IncrFans(IncrFollows(s.counts, u), v),
             AddToList(AddToList(s.sets, FollowKey(u), clock.followedAt, v), FansKey(v), clock.fannedAt, u)), Ok)
  }

  ghost function UnFollow(s: State, u: int, v: int): (State, Outcome) {
    if u == 0 then (s, Failed(FollowUserIdEmpty))
    else if v == 0 then (s, Failed(FollowedUserIdEmpty))
    else if (u, v) !in s.edges || !s.edges[(u, v)].active then (s, Ok)
    else
      (State(s.edges[(u, v) := s.edges[(u, v)].(active := false)],
             s.nextId,
             DecrFans(DecrFollows(s.counts, u), v),
             Removed(Removed(s.sets, FollowKey(u), v), FansKey(v), u)), Ok)
  }

  /** ZADD of the entries one by one. */
  ghost function AddAll(sets: Store, key: Key, entries: seq<Entry>): Store
    decreases |entries|
  {
    if entries == [] then sets
    else AddAll(Added(sets, key, entries[0].score, entries[0].member), key, entries[1..])
  }

  /** SELECT ... ORDER BY id DESC LIMIT limit over the chosen rows. */
  ghost predicate IsNewest(edges: Edges, chosen: set<(int, int)>, limit: nat, rows: seq<(int, int)>) {
    && chosen <= edges.Keys
    && |rows| <= limit
    && (forall i :: 0 <= i < |rows| ==> rows[i] in chosen)
    && (forall i, j :: 0 <= i < j < |rows| ==> edges[rows[i]].id > edges[rows[j]].id)
    && (forall e, i :: e in chosen && e !in rows && 0 <= i < |rows| ==> edges[rows[i]].id > edges[e].id)
    && (|rows| < limit ==> forall e :: e in chosen ==> e in rows)
  }

  ghost function ActiveFrom(edges: Edges, u: int): set<(int, int)> {
    set e | e in edges && edges[e].active && e.0 == u
  }

  ghost function ActiveTo(edges: Edges, v: int): set<(int, int)> {
    set e | e in edges && edges[e].active && e.1 == v
  }

  ghost function FollowEntries(edges: Edges, rows: seq<(int, int)>): (r: seq<Entry>)
    requires forall i :: 0 <= i < |rows| ==> rows[i] in edges
    ensures |r| == |rows|
  {
    seq(|rows|, i requires 0 <= i < |rows| => Entry(edges[rows[i]].created, rows[i].1))
  }

  ghost function FanEntries(edges: Edges, rows: seq<(int, int)>): (r: seq<Entry>)
    requires forall i :: 0 <= i < |rows| ==> rows[i] in edges
    ensures |r| == |rows|
  {
    seq(|rows|, i requires 0 <= i < |rows| => Entry(edges[rows[i]].created, rows[i].0))
  }

  /** The sentinel goes last, and only when the query did not reach its limit. */
  ghost function WithSentinel(entries: seq<Entry>): seq<Entry> {
    if 0 < |entries| < CACHE_MAX then entries + [Entry(0, SENTINEL)] else entries
  }

  /** The steps of a run. A fill stops after any number of ZADDs. */
  datatype Op =
    | DoFollow(u: int, v: int, clock: Clock)
    | DoUnFollow(u: int, v: int)
    | FillFollows(user: int, rows: seq<(int, int)>, done: nat)
    | FillFans(user: int, rows: seq<(int, int)>, done: nat)
    | Expire(key: Key)

  ghost predicate Enabled(s: State, op: Op) {
    match op
    case DoFollow(_, _, clock) => clock.created > 0 && clock.followedAt > 0 && clock.fannedAt > 0
    case DoUnFollow(_, _) => true
    case FillFollows(u, rows, done) =>
      IsNewest(s.edges, ActiveFrom(s.edges, u), CACHE_MAX, rows) &&
      done <= |WithSentinel(FollowEntries(s.edges, rows))|
    case FillFans(u, rows, done) =>
      IsNewest(s.edges, ActiveTo(s.edges, u), CACHE_MAX, rows) &&
      done <= |WithSentinel(FanEntries(s.edges, rows))|
    case Expire(_) => true
  }

  ghost function Apply(s: State, op: Op): State
    requires Enabled(s, op)
  {
    match op
    case DoFollow(u, v, clock) => Follow(s, u, v, clock).0
    case DoUnFollow(u, v) => UnFollow(s, u, v).0
    case FillFollows(u, rows, done) =>
      s.(sets := AddAll(s.sets, FollowKey(u), WithSentinel(FollowEntries(s.edges, rows))[..done]))
    case FillFans(u, rows, done) =>
      s.(sets := AddAll(s.sets, FansKey(u), WithSentinel(FanEntries(s.edges, rows))[..done]))
    case Expire(key) => s.(sets := s.sets - {key})
  }

  /** The counters are the degrees of the graph. */
  ghost predicate Conserved(edges: Edges, counts: Counts) {
    forall w :: CountOf(counts, w) == Count(|Follows(edges, w)|, |Fans(edges, w)|)
  }

  /** Rows join two different real users, were made at a positive time and have distinct ids. */
  ghost predicate TableOk(edges: Edges, nextId: int) {
    && (forall e :: e in edges ==> e.0 > 0 && e.1 > 0 && e.0 != e.1)
    && (forall e :: e in edges ==> edges[e].created > 0 && edges[e].id < nextId)
    && (forall e, f :: e in edges && f in edges && e != f ==> edges[e].id != edges[f].id)
  }

  /** A cached list holds only current neighbours; with the sentinel it holds all of them. */
  ghost predicate ListOk(m: Scores, neighbours: set<int>) {
    && (forall k :: k in m ==> if k == SENTINEL then m[k] == 0 else m[k] > 0 && k in neighbours)
    && (SENTINEL in m ==> forall k :: k in neighbours ==> k in m)
  }

  ghost function Neighbours(edges: Edges, key: Key): set<int>
    requires !key.ArticlesKey?
  {
    if key.FollowKey? then Follows(edges, key.user) else Fans(edges, key.user)
  }

  ghost predicate ListsOk(edges: Edges, sets: Store) {
    forall key :: key in sets && !key.ArticlesKey? ==> ListOk(sets[key], Neighbours(edges, key))
  }

  ghost predicate Inv(s: State) {
    && TableOk(s.edges, s.nextId)
    && Conserved(s.edges, s.counts)
    && NoEmptySet(s.sets)
    && ListsOk(s.edges, s.sets)
  }

  const EMPTY: State := State(map[], 1, map[], map[])

  // ---- The graph ----

  /** What an edge (u, v) switching on or off does to the neighbours around it. */
  ghost predicate EdgeOn(before: Edges, after: Edges, u: int, v: int) {
    && Follows(after, u) == Follows(before, u) + {v} && v !in Follows(before, u)
    && Fans(after, v) == Fans(before, v) + {u} && u !in Fans(before, v)
    && OthersSame(before, after, u, v)
  }

  ghost predicate EdgeOff(before: Edges, after: Edges, u: int, v: int) {
    && Follows(after, u) == Follows(before, u) - {v} && v in Follows(before, u)
    && Fans(after, v) == Fans(before, v) - {u} && u in Fans(before, v)
    && OthersSame(before, after, u, v)
  }

  ghost predicate OthersSame(before: Edges, after: Edges, u: int, v: int) {
    && (forall w :: w != u ==> Follows(after, w) == Follows(before, w))
    && (forall w :: w != v ==> Fans(after, w) == Fans(before, w))
  }

  lemma SwitchOn(edges: Edges, e: (int, int), row: Row)
    requires row.active && (e in edges ==> !edges[e].active)
    ensures EdgeOn(edges, edges[e := row], e.0, e.1)
  {
  }

  lemma SwitchOff(edges: Edges, e: (int, int), row: Row)
    requires !row.active && e in edges && edges[e].active
    ensures EdgeOff(edges, edges[e := row], e.0, e.1)
  {
  }

  /** The decrement guards never hold an update back. */
  lemma GuardsPass(s: State, u: int, v: int)
    requires Inv(s) && (u, v) in s.edges && s.edges[(u, v)].active
    ensures u in s.counts && s.counts[u].follows > 0
    ensures v in s.counts && s.counts[v].fans > 0
  {
    var row := s.edges[(u, v)].(active := false);
    SwitchOff(s.edges, (u, v), row);
    assert CountOf(s.counts, u) == Count(|Follows(s.edges, u)|, |Fans(s.edges, u)|);
    assert CountOf(s.counts, v) == Count(|Follows(s.edges, v)|, |Fans(s.edges, v)|);
  }

  /** The counters stay the degrees when an edge appears or disappears with both updates. */
  lemma CountsFollowEdge(edges: Edges, after: Edges, counts: Counts, u: int, v: int)
    requires Conserved(edges, counts) && u != v
    requires EdgeOn(edges, after, u, v)
    ensures Conserved(after, IncrFans(IncrFollows(counts, u), v))
  {
    hide Follows, Fans, IncrFans, IncrFollows;
    forall w
      ensures CountOf(IncrFans(IncrFollows(counts, u), v), w) == Count(|Follows(after, w)|, |Fans(after, w)|)
    {
      assert CountOf(counts, w) == Count(|Follows(edges, w)|, |Fans(edges, w)|);
      IncrEffect(counts, u, v, w);
    }
  }

  lemma IncrEffect(counts: Counts, u: int, v: int, w: int)
    ensures CountOf(IncrFans(IncrFollows(counts, u), v), w) ==
      Count(CountOf(counts, w).follows + (if w == u then 1 else 0), CountOf(counts, w).fans + (if w == v then 1 else 0))
  {
  }

  lemma CountsUnFollowEdge(edges: Edges, after: Edges, counts: Counts, u: int, v: int)
    requires Conserved(edges, counts) && u != v
    requires EdgeOff(edges, after, u, v)
    ensures Conserved(after, DecrFans(DecrFollows(counts, u), v))
  {
    hide Follows, Fans;
    forall w
      ensures CountOf(DecrFans(DecrFollows(counts, u), v), w) == Count(|Follows(after, w)|, |Fans(after, w)|)
    {
      assert CountOf(counts, w) == Count(|Follows(edges, w)|, |Fans(edges, w)|);
      assert CountOf(counts, u).follows > 0 && CountOf(counts, v).fans > 0 by {
        assert CountOf(counts, u) == Count(|Follows(edges, u)|, |Fans(edges, u)|);
        assert CountOf(counts, v) == Count(|Follows(edges, v)|, |Fans(edges, v)|);
      }
    }
  }

  // ---- The cached lists ----

  /** Trimming takes the sentinel first: while it stays, nothing has been trimmed. */
  lemma SentinelGoesFirst(m: Scores, n: nat)
    requires forall k :: k in m && k != SENTINEL ==> m[k] > 0
    requires SENTINEL in m && m[SENTINEL] == 0
    ensures SENTINEL in Top(m, n) ==> Top(m, n) == m
  {
    if SENTINEL in Top(m, n) {
      var all := Higher(m, Entry(0, SENTINEL));
      assert all == m.Keys - {SENTINEL};
      forall k | k in m && k != SENTINEL
        ensures |Higher(m, Entry(m[k], k))| < n
      {
        var above := Higher(m, Entry(m[k], k));
        AboveIsStrictOrder(Entry(m[k], k), Entry(0, SENTINEL), Entry(0, SENTINEL));
        assert above <= all;
        SubsetSize(above, all);
      }
    }
  }

  lemma ListAfterFollow(m: Scores, neighbours: set<int>, score: int, k: int)
    requires ListOk(m, neighbours) && score > 0 && k > 0
    ensures ListOk(Top(m[k := score], CACHE_MAX), neighbours + {k})
  {
    if SENTINEL in m {
      SentinelGoesFirst(m[k := score], CACHE_MAX);
    }
  }

  lemma ListAfterUnFollow(m: Scores, neighbours: set<int>, k: int)
    requires ListOk(m, neighbours) && k > 0
    ensures ListOk(m - {k}, neighbours - {k})
  {
  }

  lemma {:induction false} AddAllLast(sets: Store, key: Key, entries: seq<Entry>, last: Entry)
    ensures AddAll(sets, key, entries + [last]) == Added(AddAll(sets, key, entries), key, last.score, last.member)
    decreases |entries|
  {
    if entries == [] {
      assert [last][1..] == [];
    } else {
      assert (entries + [last])[1..] == entries[1..] + [last];
      AddAllLast(Added(sets, key, entries[0].score, entries[0].member), key, entries[1..], last);
    }
  }

  lemma GetAdded(sets: Store, key: Key, e: Entry)
    ensures Get(Added(sets, key, e.score, e.member), key) == Get(sets, key)[e.member := e.score]
  {
  }

  lemma {:induction false} AddAllLists(sets: Store, key: Key, entries: seq<Entry>)
    requires key !in sets && Distinct(entries)
    ensures Get(AddAll(sets, key, entries), key) == ScoresOf(entries)
  {
    if entries == [] {
      assert ScoresOf(entries) == map[];
    } else {
      hide ScoresOf, AddAll, MembersOf, Get, Added;
      var front, last := entries[..|entries| - 1], entries[|entries| - 1];
      AddAllLists(sets, key, front);
      assert front + [last] == entries;
      AddAllLast(sets, key, front, last);
      GetAdded(AddAll(sets, key, front), key, last);
      InsertMembers(front, |front|, last, entries);
      InsertValues(front, |front|, last, entries);
    }
  }

  ghost predicate OtherSetsSame(a: Store, b: Store, key: Key) {
    forall other :: other != key ==> (other in a <==> other in b) && (other in a ==> a[other] == b[other])
  }

  /** Adding neighbours one by one keeps a list sound, and a complete one complete. */
  lemma {:induction false} FillOk(sets: Store, key: Key, neighbours: set<int>, entries: seq<Entry>)
    requires ListOk(Get(sets, key), neighbours) && NoEmptySet(sets)
    requires forall e :: e in entries ==> e.score > 0 && e.member in neighbours && e.member != SENTINEL
    ensures ListOk(Get(AddAll(sets, key, entries), key), neighbours)
    ensures Get(AddAll(sets, key, entries), key).Keys >= Get(sets, key).Keys
    ensures forall e :: e in entries ==> e.member in Get(AddAll(sets, key, entries), key)
    ensures OtherSetsSame(AddAll(sets, key, entries), sets, key) && NoEmptySet(AddAll(sets, key, entries))
    decreases |entries|
  {
    if entries != [] {
      FillOk(Added(sets, key, entries[0].score, entries[0].member), key, neighbours, entries[1..]);
    }
  }

  /** A fill that stops anywhere: the sentinel only goes in after every neighbour has. */
  lemma CutFillOk(sets: Store, key: Key, neighbours: set<int>, entries: seq<Entry>, done: nat)
    requires ListOk(Get(sets, key), neighbours) && NoEmptySet(sets)
    requires forall e :: e in entries ==> e.score > 0 && e.member in neighbours && e.member != SENTINEL
    requires |entries| < CACHE_MAX ==> forall k :: k in neighbours ==> exists e :: e in entries && e.member == k
    requires done <= |WithSentinel(entries)|
    ensures ListOk(Get(AddAll(sets, key, WithSentinel(entries)[..done]), key), neighbours)
    ensures OtherSetsSame(AddAll(sets, key, WithSentinel(entries)[..done]), sets, key)
    ensures NoEmptySet(AddAll(sets, key, WithSentinel(entries)[..done]))
  {
    if done <= |entries| {
      assert WithSentinel(entries)[..done] == entries[..done];
      FillOk(sets, key, neighbours, entries[..done]);
    } else {
      assert WithSentinel(entries)[..done] == entries + [Entry(0, SENTINEL)];
      AddAllLast(sets, key, entries, Entry(0, SENTINEL));
      FillOk(sets, key, neighbours, entries);
    }
  }

  // ---- What a complete fill writes ----

  lemma FillWrites(sets: Store, key: Key, entries: seq<Entry>)
    requires key !in sets && Distinct(entries) && SENTINEL !in MembersOf(entries)
    ensures var m := Get(AddAll(sets, key, WithSentinel(entries)), key);
      && (forall i :: 0 <= i < |entries| ==> entries[i].member in m && m[entries[i].member] == entries[i].score)
      && (forall k :: k in m ==> k in MembersOf(entries) || (k == -1 && m[k] == 0))
      && (-1 in m <==> 0 < |entries| < 1000)
  {
    hide ScoresOf, AddAll;
    AddAllLists(sets, key, entries);
    AddAllLast(sets, key, entries, Entry(0, SENTINEL));
  }

  /**
   What a fill of an absent follow list leaves: everybody followed in the rows found, at the time the
   row was made, and -1 at score 0 exactly when fewer than 1000 rows were found, but at least one.
   */
  lemma FollowFillWrites(s: State, u: int, rows: seq<(int, int)>)
    requires Inv(s) && IsNewest(s.edges, ActiveFrom(s.edges, u), CACHE_MAX, rows) && FollowKey(u) !in s.sets
    ensures var m := Get(AddAll(s.sets, FollowKey(u), WithSentinel(FollowEntries(s.edges, rows))), FollowKey(u));
      && (forall e :: e in rows ==> e.1 in m && m[e.1] == s.edges[e].created)
      && (forall k :: k in m ==> (u, k) in rows || (k == -1 && m[k] == 0))
      && (-1 in m <==> 0 < |rows| < 1000)
  {
    hide Conserved, ListsOk, AddAll, WithSentinel;
    var entries := FollowEntries(s.edges, rows);
    forall i | 0 <= i < |rows|
      ensures rows[i].0 == u && rows[i].1 > 0
    {
      assert rows[i] in ActiveFrom(s.edges, u);
    }
    forall i, j | 0 <= i < j < |rows|
      ensures entries[i].member != entries[j].member
    {
      assert s.edges[rows[i]].id > s.edges[rows[j]].id;
    }
    FillWrites(s.sets, FollowKey(u), entries);
    forall e | e in rows
      ensures exists i :: 0 <= i < |entries| && entries[i] == Entry(s.edges[e].created, e.1)
    {
      var i :| 0 <= i < |rows| && rows[i] == e;
      assert entries[i] == Entry(s.edges[e].created, e.1);
    }
    forall k | k in MembersOf(entries)
      ensures (u, k) in rows
    {
      var i :| 0 <= i < |entries| && entries[i].member == k;
      assert rows[i] == (u, k);
    }
  }

  lemma FansFillWrites(s: State, v: int, rows: seq<(int, int)>)
    requires Inv(s) && IsNewest(s.edges, ActiveTo(s.edges, v), CACHE_MAX, rows) && FansKey(v) !in s.sets
    ensures var m := Get(AddAll(s.sets, FansKey(v), WithSentinel(FanEntries(s.edges, rows))), FansKey(v));
      && (forall e :: e in rows ==> e.0 in m && m[e.0] == s.edges[e].created)
      && (forall k :: k in m ==> (k, v) in rows || (k == -1 && m[k] == 0))
      && (-1 in m <==> 0 < |rows| < 1000)
  {
    hide Conserved, ListsOk, AddAll, WithSentinel;
    var entries := FanEntries(s.edges, rows);
    forall i | 0 <= i < |rows|
      ensures rows[i].1 == v && rows[i].0 > 0
    {
      assert rows[i] in ActiveTo(s.edges, v);
    }
    forall i, j | 0 <= i < j < |rows|
      ensures entries[i].member != entries[j].member
    {
      assert s.edges[rows[i]].id > s.edges[rows[j]].id;
    }
    FillWrites(s.sets, FansKey(v), entries);
    forall e | e in rows
      ensures exists i :: 0 <= i < |entries| && entries[i] == Entry(s.edges[e].created, e.0)
    {
      var i :| 0 <= i < |rows| && rows[i] == e;
      assert entries[i] == Entry(s.edges[e].created, e.0);
    }
    forall k | k in MembersOf(entries)
      ensures (k, v) in rows
    {
      var i :| 0 <= i < |entries| && entries[i].member == k;
      assert rows[i] == (k, v);
    }
  }

  // ---- Every run ----

  lemma OneListAfterFollow(sets: Store, key: Key, neighbours: set<int>, score: int, k: int)
    requires NoEmptySet(sets) && score > 0 && k > 0
    requires key in sets ==> ListOk(sets[key], neighbours)
    ensures NoEmptySet(AddToList(sets, key, score, k)) && OtherSetsSame(AddToList(sets, key, score, k), sets, key)
    ensures key in AddToList(sets, key, score, k) ==> ListOk(AddToList(sets, key, score, k)[key], neighbours + {k})
  {
    if key in sets {
      ListAfterFollow(sets[key], neighbours, score, k);
    }
  }

  lemma ListsAfterFollow(before: Edges, after: Edges, sets: Store, u: int, v: int, clock: Clock)
    requires NoEmptySet(sets) && ListsOk(before, sets) && EdgeOn(before, after, u, v)
    requires u > 0 && v > 0 && clock.followedAt > 0 && clock.fannedAt > 0
    ensures NoEmptySet(AddToList(AddToList(sets, FollowKey(u), clock.followedAt, v), FansKey(v), clock.fannedAt, u))
    ensures ListsOk(after, AddToList(AddToList(sets, FollowKey(u), clock.followedAt, v), FansKey(v), clock.fannedAt, u))
  {
    hide ListOk, AddToList, Follows, Fans;
    var s1 := AddToList(sets, FollowKey(u), clock.followedAt, v);
    OneListAfterFollow(sets, FollowKey(u), Follows(before, u), clock.followedAt, v);
    OneListAfterFollow(s1, FansKey(v), Fans(before, v), clock.fannedAt, u);
    var s2 := AddToList(s1, FansKey(v), clock.fannedAt, u);
    forall key | key in s2 && !key.ArticlesKey?
      ensures ListOk(s2[key], Neighbours(after, key))
    {
      assert key != FansKey(v) ==> key in s1 && s2[key] == s1[key];
    }
  }

  lemma ListsAfterUnFollow(before: Edges, after: Edges, sets: Store, u: int, v: int)
    requires NoEmptySet(sets) && ListsOk(before, sets) && EdgeOff(before, after, u, v)
    requires u > 0 && v > 0
    ensures NoEmptySet(Removed(Removed(sets, FollowKey(u), v), FansKey(v), u))
    ensures ListsOk(after, Removed(Removed(sets, FollowKey(u), v), FansKey(v), u))
  {
    hide Follows, Fans;
    var s2 := Removed(Removed(sets, FollowKey(u), v), FansKey(v), u);
    forall key | key in s2 && !key.ArticlesKey?
      ensures ListOk(s2[key], Neighbours(after, key))
    {
      if key == FollowKey(u) {
        ListAfterUnFollow(sets[key], Follows(before, u), v);
      } else if key == FansKey(v) {
        ListAfterUnFollow(sets[key], Fans(before, v), u);
      }
    }
  }

  lemma TableAfterSwitch(edges: Edges, nextId: int, e: (int, int), row: Row, newId: int)
    requires TableOk(edges, nextId) && nextId <= newId && e.0 > 0 && e.1 > 0 && e.0 != e.1 && row.created > 0
    requires if e in edges then row.id == edges[e].id else row.id == nextId < newId
    ensures TableOk(edges[e := row], newId)
  {
  }

  lemma FollowKeepsInv(s: State, u: int, v: int, clock: Clock)
    requires Inv(s) && clock.created > 0 && clock.followedAt > 0 && clock.fannedAt > 0
    ensures Inv(Follow(s, u, v, clock).0)
  {
    var t := Follow(s, u, v, clock).0;
    if t != s {
      var row := t.edges[(u, v)];
      assert t.edges == s.edges[(u, v) := row];
      SwitchOn(s.edges, (u, v), row);
      TableAfterSwitch(s.edges, s.nextId, (u, v), row, t.nextId);
      CountsFollowEdge(s.edges, t.edges, s.counts, u, v);
      ListsAfterFollow(s.edges, t.edges, s.sets, u, v, clock);
    }
  }

  lemma UnFollowKeepsInv(s: State, u: int, v: int)
    requires Inv(s)
    ensures Inv(UnFollow(s, u, v).0)
  {
    var t := UnFollow(s, u, v).0;
    if t != s {
      var row := t.edges[(u, v)];
      assert t.edges == s.edges[(u, v) := row];
      SwitchOff(s.edges, (u, v), row);
      TableAfterSwitch(s.edges, s.nextId, (u, v), row, t.nextId);
      CountsUnFollowEdge(s.edges, t.edges, s.counts, u, v);
      ListsAfterUnFollow(s.edges, t.edges, s.sets, u, v);
    }
  }

  lemma FillFollowsKeepsInv(s: State, op: Op)
    requires Inv(s) && Enabled(s, op) && op.FillFollows?
    ensures Inv(Apply(s, op))
  {
    var entries := FollowEntries(s.edges, op.rows);
    forall k | k in Follows(s.edges, op.user) && |entries| < CACHE_MAX
      ensures exists e :: e in entries && e.member == k
    {
      assert (op.user, k) in op.rows;
      var i :| 0 <= i < |op.rows| && op.rows[i] == (op.user, k);
      assert entries[i] in entries;
    }
    CutFillOk(s.sets, FollowKey(op.user), Follows(s.edges, op.user), entries, op.done);
  }

  lemma FillFansKeepsInv(s: State, op: Op)
    requires Inv(s) && Enabled(s, op) && op.FillFans?
    ensures Inv(Apply(s, op))
  {
    var entries := FanEntries(s.edges, op.rows);
    forall k | k in Fans(s.edges, op.user) && |entries| < CACHE_MAX
      ensures exists e :: e in entries && e.member == k
    {
      assert (k, op.user) in op.rows;
      var i :| 0 <= i < |op.rows| && op.rows[i] == (k, op.user);
      assert entries[i] in entries;
    }
    CutFillOk(s.sets, FansKey(op.user), Fans(s.edges, op.user), entries, op.done);
  }

  lemma StepKeepsInv(s: State, op: Op)
    requires Inv(s) && Enabled(s, op)
    ensures Inv(Apply(s, op))
  {
    match op
    case DoFollow(u, v, clock) => FollowKeepsInv(s, u, v, clock);
    case DoUnFollow(u, v) => UnFollowKeepsInv(s, u, v);
    case FillFollows(_, _, _) => FillFollowsKeepsInv(s, op);
    case FillFans(_, _, _) => FillFansKeepsInv(s, op);
    case Expire(_) =>
  }

  ghost predicate Possible(s: State, ops: seq<Op>)
    decreases |ops|
  {
    ops == [] || (Enabled(s, ops[0]) && Possible(Apply(s, ops[0]), ops[1..]))
  }

  ghost function Run(s: State, ops: seq<Op>): State
    requires Possible(s, ops)
    decreases |ops|
  {
    if ops == [] then s else Run(Apply(s, ops[0]), ops[1..])
  }

  lemma {:induction false} EveryRunKeepsInv(s: State, ops: seq<Op>)
    requires Inv(s) && Possible(s, ops)
    ensures Inv(Run(s, ops))
    decreases |ops|
  {
    if ops != [] {
      StepKeepsInv(s, ops[0]);
      EveryRunKeepsInv(Apply(s, ops[0]), ops[1..]);
    }
  }

  // ---- Scores are follow times ----

  /** The clock readings of the past follows of v by u. */
  ghost predicate FollowedWith(past: seq<Op>, u: int, v: int, clock: Clock) {
    DoFollow(u, v, clock) in past
  }

  /** A row was made at a follow of that edge. */
  ghost predicate CreatedOk(edges: Edges, past: seq<Op>) {
    forall e :: e in edges ==> exists clock :: FollowedWith(past, e.0, e.1, clock) && edges[e].created == clock.created
  }

  /** A score is the time its row was made or the list was updated, at a follow of that edge. */
  ghost predicate ScoreOk(past: seq<Op>, key: Key, k: int, score: int)
    requires !key.ArticlesKey?
  {
    match key
    case FollowKey(u) =>
      exists clock :: FollowedWith(past, u, k, clock) && (score == clock.created || score == clock.followedAt)
    case FansKey(v) =>
      exists clock :: FollowedWith(past, k, v, clock) && (score == clock.created || score == clock.fannedAt)
  }

  ghost predicate ScoresOk(sets: Store, past: seq<Op>) {
    forall key, k :: key in sets && !key.ArticlesKey? && k in sets[key] && k != SENTINEL ==>
      ScoreOk(past, key, k, sets[key][k])
  }

  ghost predicate TimesOk(s: State, past: seq<Op>) {
    CreatedOk(s.edges, past) && ScoresOk(s.sets, past)
  }

  lemma PastGrows(s: State, past: seq<Op>, op: Op)
    requires TimesOk(s, past)
    ensures TimesOk(s, past + [op])
  {
    assert forall u, v, clock :: FollowedWith(past, u, v, clock) ==> FollowedWith(past + [op], u, v, clock);
  }

  lemma AddKeepsScores(sets: Store, past: seq<Op>, key: Key, score: int, member: int)
    requires ScoresOk(sets, past) && !key.ArticlesKey? && ScoreOk(past, key, member, score)
    ensures ScoresOk(AddToList(sets, key, score, member), past)
  {
    hide ScoreOk, Higher;
    var after := AddToList(sets, key, score, member);
    forall other, k | other in after && !other.ArticlesKey? && k in after[other] && k != SENTINEL
      ensures ScoreOk(past, other, k, after[other][k])
    {
      if other == key {
        assert after[key][k] == sets[key][member := score][k];
      }
    }
  }

  lemma FollowKeepsTimes(s: State, past: seq<Op>, u: int, v: int, clock: Clock)
    requires TimesOk(s, past) && FollowedWith(past, u, v, clock)
    ensures TimesOk(Follow(s, u, v, clock).0, past)
  {
    hide AddToList, ScoresOk, IncrFans, IncrFollows;
    var t := Follow(s, u, v, clock).0;
    if t.edges != s.edges || t.sets != s.sets {
      AddKeepsScores(s.sets, past, FollowKey(u), clock.followedAt, v);
      AddKeepsScores(AddToList(s.sets, FollowKey(u), clock.followedAt, v), past, FansKey(v), clock.fannedAt, u);
    }
  }

  lemma UnFollowKeepsTimes(s: State, past: seq<Op>, u: int, v: int)
    requires TimesOk(s, past)
    ensures TimesOk(UnFollow(s, u, v).0, past)
  {
    hide ScoreOk, DecrFans, DecrFollows;
  }

  lemma {:induction false} AddAllScores(sets: Store, key: Key, entries: seq<Entry>, k: int)
    requires k in Get(AddAll(sets, key, entries), key)
    ensures var score := Get(AddAll(sets, key, entries), key)[k];
      Entry(score, k) in entries || (k in Get(sets, key) && Get(sets, key)[k] == score)
    decreases |entries|
  {
    if entries != [] {
      var next := Added(sets, key, entries[0].score, entries[0].member);
      AddAllScores(next, key, entries[1..], k);
      GetAdded(sets, key, entries[0]);
      assert forall e :: e in entries[1..] ==> e in entries;
    }
  }

  lemma {:induction false} AddAllElsewhere(sets: Store, key: Key, entries: seq<Entry>)
    ensures OtherSetsSame(AddAll(sets, key, entries), sets, key)
    decreases |entries|
  {
    if entries != [] {
      AddAllElsewhere(Added(sets, key, entries[0].score, entries[0].member), key, entries[1..]);
    }
  }

  lemma FillKeepsScores(sets: Store, past: seq<Op>, key: Key, entries: seq<Entry>)
    requires ScoresOk(sets, past) && !key.ArticlesKey?
    requires forall e :: e in entries && e.member != SENTINEL ==> ScoreOk(past, key, e.member, e.score)
    ensures ScoresOk(AddAll(sets, key, entries), past)
  {
    hide ScoreOk, AddAll;
    var after := AddAll(sets, key, entries);
    AddAllElsewhere(sets, key, entries);
    forall other, k | other in after && !other.ArticlesKey? && k in after[other] && k != SENTINEL
      ensures ScoreOk(past, other, k, after[other][k])
    {
      if other == key {
        AddAllScores(sets, key, entries, k);
      }
    }
  }

  lemma CreatedIsScoreOk(edges: Edges, past: seq<Op>, e: (int, int))
    requires CreatedOk(edges, past) && e in edges
    ensures ScoreOk(past, FollowKey(e.0), e.1, edges[e].created) && ScoreOk(past, FansKey(e.1), e.0, edges[e].created)
  {
  }

  lemma FillKeepsTimes(s: State, past: seq<Op>, op: Op)
    requires TimesOk(s, past) && Enabled(s, op) && (op.FillFollows? || op.FillFans?)
    ensures TimesOk(Apply(s, op), past)
  {
    hide ScoreOk, ScoresOk, CreatedOk, AddAll;
    var key := if op.FillFollows? then FollowKey(op.user) else FansKey(op.user);
    var entries := if op.FillFollows? then FollowEntries(s.edges, op.rows) else FanEntries(s.edges, op.rows);
    forall i | 0 <= i < |entries|
      ensures ScoreOk(past, key, entries[i].member, entries[i].score)
    {
      assert op.rows[i] in if op.FillFollows? then ActiveFrom(s.edges, op.user) else ActiveTo(s.edges, op.user);
      CreatedIsScoreOk(s.edges, past, op.rows[i]);
    }
    FillKeepsScores(s.sets, past, key, WithSentinel(entries)[..op.done]);
  }

  lemma StepKeepsTimes(s: State, past: seq<Op>, op: Op)
    requires TimesOk(s, past) && Enabled(s, op)
    ensures TimesOk(Apply(s, op), past + [op])
  {
    hide Follow, UnFollow, ScoreOk, AddAll, CreatedOk;
    PastGrows(s, past, op);
    match op
    case DoFollow(u, v, clock) => FollowKeepsTimes(s, past + [op], u, v, clock);
    case DoUnFollow(u, v) => UnFollowKeepsTimes(s, past + [op], u, v);
    case FillFollows(_, _, _) => FillKeepsTimes(s, past + [op], op);
    case FillFans(_, _, _) => FillKeepsTimes(s, past + [op], op);
    case Expire(_) =>
  }

  lemma {:induction false} RunKeepsTimes(s: State, past: seq<Op>, ops: seq<Op>)
    requires TimesOk(s, past) && Possible(s, ops)
    ensures TimesOk(Run(s, ops), past + ops)
    decreases |ops|
  {
    hide TimesOk, Enabled, Apply;
    if ops != [] {
      StepKeepsTimes(s, past, ops[0]);
      RunKeepsTimes(Apply(s, ops[0]), past + [ops[0]], ops[1..]);
      assert past + [ops[0]] + ops[1..] == past + ops;
    } else {
      assert past + ops == past;
    }
  }

  /**
   In every state that a run from empty tables reaches, each cached follow or fan stands at a time at
   which that user was followed: of the row or of an update of that list.
   */
  lemma ScoresAreFollowTimes(ops: seq<Op>, key: Key, k: int)
    requires Possible(EMPTY, ops)
    requires key in Run(EMPTY, ops).sets && !key.ArticlesKey? && k in Run(EMPTY, ops).sets[key] && k != -1
    ensures var score := Run(EMPTY, ops).sets[key][k];
      match key
      case FollowKey(u) =>
        exists clock :: DoFollow(u, k, clock) in ops && (score == clock.created || score == clock.followedAt)
      case FansKey(v) =>
        exists clock :: DoFollow(k, v, clock) in ops && (score == clock.created || score == clock.fannedAt)
      case _ => true
  {
    hide Run, Possible;
    RunKeepsTimes(EMPTY, [], ops);
    assert [] + ops == ops;
    assert ScoreOk(ops, key, k, Run(EMPTY, ops).sets[key][k]);
  }

  // ---- Totals, repetition and undoing ----

  ghost function Total(m: map<int, int>): int {
    if forall u :: u !in m then 0 else
      var u :| u in m;
      m[u] + Total(m - {u})
  }

  ghost function PairsFrom(pairs: set<(int, int)>, u: int): set<(int, int)> {
    set e | e in pairs && e.0 == u
  }

  lemma WithoutFrom(pairs: set<(int, int)>, u: int)
    ensures |pairs| == |PairsFrom(pairs, u)| + |pairs - PairsFrom(pairs, u)|
    ensures forall w :: w != u ==> PairsFrom(pairs - PairsFrom(pairs, u), w) == PairsFrom(pairs, w)
  {
    assert pairs == PairsFrom(pairs, u) + (pairs - PairsFrom(pairs, u));
  }

  lemma {:induction false} TotalIsSize(m: map<int, int>, pairs: set<(int, int)>)
    requires forall u :: u in m ==> m[u] == |PairsFrom(pairs, u)|
    requires forall e :: e in pairs ==> e.0 in m
    ensures Total(m) == |pairs|
  {
    if forall u :: u !in m {
      assert pairs == {};
    } else {
      var u :| u in m && Total(m) == m[u] + Total(m - {u});
      WithoutFrom(pairs, u);
      TotalIsSize(m - {u}, pairs - PairsFrom(pairs, u));
    }
  }

  /** Pairs are counted by whichever side tells them apart. */
  lemma {:induction false} SameSize<A, B>(a: set<A>, b: set<B>, f: A -> B)
    requires b == set x | x in a :: f(x)
    requires forall x, y :: x in a && y in a && f(x) == f(y) ==> x == y
    ensures |a| == |b|
  {
    if a != {} {
      var x :| x in a;
      assert b - {f(x)} == set y | y in a - {x} :: f(y);
      SameSize(a - {x}, b - {f(x)}, f);
    }
  }

  ghost function FollowCounts(counts: Counts): map<int, int> {
    map u | u in counts :: counts[u].follows
  }

  ghost function FansCounts(counts: Counts): map<int, int> {
    map u | u in counts :: counts[u].fans
  }

  lemma CountsAreDegrees(s: State)
    requires Inv(s)
    ensures forall w :: w in s.counts ==> s.counts[w] == Count(|Follows(s.edges, w)|, |Fans(s.edges, w)|)
    ensures forall e :: e in Active(s.edges) ==> e.0 in s.counts && e.1 in s.counts
  {
    forall w
      ensures w in s.counts ==> s.counts[w] == Count(|Follows(s.edges, w)|, |Fans(s.edges, w)|)
      ensures w !in s.counts ==> Follows(s.edges, w) == {} && Fans(s.edges, w) == {}
    {
      assert CountOf(s.counts, w) == Count(|Follows(s.edges, w)|, |Fans(s.edges, w)|);
    }
    forall e | e in Active(s.edges)
      ensures e.0 in s.counts && e.1 in s.counts
    {
      assert e.1 in Follows(s.edges, e.0) && e.0 in Fans(s.edges, e.1);
    }
  }

  lemma FromActive(s: State, w: int)
    ensures |PairsFrom(Active(s.edges), w)| == |Follows(s.edges, w)|
  {
    var a, b := PairsFrom(Active(s.edges), w), Follows(s.edges, w);
    var second := (e: (int, int)) => e.1;
    forall v | v in b
      ensures (w, v) in a && v == second((w, v))
    {
      assert (w, v) in Active(s.edges);
    }
    assert forall e :: e in a ==> second(e) in b;
    assert b == set e | e in a :: second(e);
    SameSize(a, b, second);
  }

  lemma FollowTotal(s: State)
    requires Inv(s)
    ensures Total(FollowCounts(s.counts)) == |Active(s.edges)|
  {
    CountsAreDegrees(s);
    forall w | w in s.counts
      ensures |PairsFrom(Active(s.edges), w)| == s.counts[w].follows
    {
      FromActive(s, w);
    }
    TotalIsSize(FollowCounts(s.counts), Active(s.edges));
  }

  ghost function Swapped(pairs: set<(int, int)>): set<(int, int)> {
    set e | e in pairs :: (e.1, e.0)
  }

  lemma FromSwapped(s: State, w: int)
    ensures |PairsFrom(Swapped(Active(s.edges)), w)| == |Fans(s.edges, w)|
  {
    var a, b := PairsFrom(Swapped(Active(s.edges)), w), Fans(s.edges, w);
    var second := (e: (int, int)) => e.1;
    forall u | u in b
      ensures (w, u) in a && u == second((w, u))
    {
      assert (u, w) in Active(s.edges);
    }
    forall e | e in a
      ensures second(e) in b
    {
      assert (e.1, e.0) in Active(s.edges);
    }
    assert b == set e | e in a :: second(e);
    SameSize(a, b, second);
  }

  lemma FansTotal(s: State)
    requires Inv(s)
    ensures Total(FansCounts(s.counts)) == |Active(s.edges)|
  {
    CountsAreDegrees(s);
    forall w | w in s.counts
      ensures |PairsFrom(Swapped(Active(s.edges)), w)| == s.counts[w].fans
    {
      FromSwapped(s, w);
    }
    TotalIsSize(FansCounts(s.counts), Swapped(Active(s.edges)));
    SameSize(Active(s.edges), Swapped(Active(s.edges)), (e: (int, int)) => (e.1, e.0));
  }

  /** Over all users, the follow counts and the fans counts add up to the same: the active edges. */
  lemma TotalsAgree(s: State)
    requires Inv(s)
    ensures Total(FollowCounts(s.counts)) == |Active(s.edges)| == Total(FansCounts(s.counts))
  {
    FollowTotal(s);
    FansTotal(s);
  }

  /**
   In every state that a run from empty tables reaches: the counters are the degrees and both add up
   to the active edges, nobody follows themselves, a cached member other than the sentinel is a
   current neighbour, and a list with the sentinel has every neighbour.
   */
  lemma ReachableStates(ops: seq<Op>)
    requires Possible(EMPTY, ops)
    ensures var s := Run(EMPTY, ops);
      && (forall w :: CountOf(s.counts, w) == Count(|Follows(s.edges, w)|, |Fans(s.edges, w)|))
      && Total(FollowCounts(s.counts)) == |Active(s.edges)| == Total(FansCounts(s.counts))
      && (forall e :: e in s.edges ==> e.0 != e.1)
      && (forall key, k :: key in s.sets && !key.ArticlesKey? && k in s.sets[key] && k != SENTINEL ==>
            k in Neighbours(s.edges, key))
      && (forall key, k :: key in s.sets && !key.ArticlesKey? && SENTINEL in s.sets[key] && k in Neighbours(s.edges, key) ==>
            k in s.sets[key])
  {
    hide Run, Possible, Follows, Fans, Active, Total, Neighbours;
    assert Inv(EMPTY) by { EmptyTablesAreOk(); }
    EveryRunKeepsInv(EMPTY, ops);
    TotalsAgree(Run(EMPTY, ops));
  }

  lemma EmptyTablesAreOk()
    ensures Inv(EMPTY)
  {
    assert forall w :: Follows(EMPTY.edges, w) == {} && Fans(EMPTY.edges, w) == {};
  }

  /** Following or unfollowing again changes nothing at all, lists and counters included. */
  lemma RepeatIsNoOp(s: State, u: int, v: int, first: Clock, second: Clock)
    ensures Follow(s, u, v, first).1.Ok? ==> Follow(Follow(s, u, v, first).0, u, v, second) == (Follow(s, u, v, first).0, Ok)
    ensures UnFollow(UnFollow(s, u, v).0, u, v) == UnFollow(s, u, v)
  {
  }

  /** The new score, then the cut to the 1000 highest, in a list that exists. */
  ghost predicate Listed(before: Store, after: Store, key: Key, member: int, score: int) {
    && (key in after <==> key in before)
    && (key in before ==> after[key] == Top(before[key][member := score], 1000))
  }

  /**
   A follow between two users makes the edge active, whether it was never there, was ended before or
   is active already, and an edge that was not active enters the two lists at its own clock readings.
   */
  lemma FollowMeans(s: State, u: int, v: int, clock: Clock)
    requires Inv(s) && u > 0 && v > 0 && u != v
    ensures var (t, r) := Follow(s, u, v, clock);
      && r == Ok && Active(t.edges) == Active(s.edges) + {(u, v)}
      && (forall e :: e in t.edges <==> e in s.edges || e == (u, v))
      && (forall e :: e in s.edges && e != (u, v) ==> t.edges[e] == s.edges[e])
      && t.edges[(u, v)].created == (if (u, v) in s.edges then s.edges[(u, v)].created else clock.created)
      && ((u, v) in Active(s.edges) ==> t == s)
      && ((u, v) !in Active(s.edges) ==>
            && Listed(s.sets, t.sets, FollowKey(u), v, clock.followedAt)
            && Listed(s.sets, t.sets, FansKey(v), u, clock.fannedAt)
            && forall key :: key != FollowKey(u) && key != FansKey(v) ==>
              (key in t.sets <==> key in s.sets) && (key in s.sets ==> t.sets[key] == s.sets[key]))
  {
    hide ListsOk, Conserved, Top, IncrFans, IncrFollows;
    if (u, v) !in Active(s.edges) {
      AddMeans(s.sets, FollowKey(u), clock.followedAt, v);
      AddMeans(AddToList(s.sets, FollowKey(u), clock.followedAt, v), FansKey(v), clock.fannedAt, u);
    }
  }

  lemma AddMeans(sets: Store, key: Key, score: int, member: int)
    requires NoEmptySet(sets)
    ensures NoEmptySet(AddToList(sets, key, score, member))
    ensures Listed(sets, AddToList(sets, key, score, member), key, member, score)
    ensures OtherSetsSame(AddToList(sets, key, score, member), sets, key)
  {
    if key in sets {
      TopIsHighest(sets[key][member := score], CACHE_MAX);
      assert member in sets[key][member := score];
    }
  }

  /** An unfollow ends exactly that edge and takes both users off the other's list. */
  lemma UnFollowMeans(s: State, u: int, v: int)
    requires Inv(s) && u != 0 && v != 0
    ensures var (t, r) := UnFollow(s, u, v);
      && r == Ok && Active(t.edges) == Active(s.edges) - {(u, v)}
      && (forall e :: e in t.edges <==> e in s.edges)
      && (forall e :: e in s.edges && e != (u, v) ==> t.edges[e] == s.edges[e])
      && ((u, v) !in Active(s.edges) ==> t == s)
      && ((u, v) in Active(s.edges) ==> forall key ::
            Get(t.sets, key) == Get(s.sets, key) -
              if key == FollowKey(u) then {v} else if key == FansKey(v) then {u} else {})
  {
    hide ListsOk, Conserved, DecrFans, DecrFollows;
  }

  lemma SwitchBack(edges: Edges, e: (int, int), on: Row, off: Row)
    requires on.active && !off.active && (e in edges ==> !edges[e].active)
    ensures Active(edges[e := on][e := off]) == Active(edges)
    ensures forall w :: Follows(edges[e := on][e := off], w) == Follows(edges, w)
    ensures forall w :: Fans(edges[e := on][e := off], w) == Fans(edges, w)
  {
  }

  /** Unfollowing undoes a follow: the same active edges and the same counters. */
  lemma UnFollowUndoesFollow(s: State, u: int, v: int, clock: Clock)
    requires Inv(s) && (u, v) !in Active(s.edges) && Follow(s, u, v, clock).1.Ok?
    requires clock.created > 0 && clock.followedAt > 0 && clock.fannedAt > 0
    ensures Active(UnFollow(Follow(s, u, v, clock).0, u, v).0.edges) == Active(s.edges)
    ensures forall w :: CountOf(UnFollow(Follow(s, u, v, clock).0, u, v).0.counts, w) == CountOf(s.counts, w)
  {
    FollowKeepsInv(s, u, v, clock);
    var t1 := Follow(s, u, v, clock).0;
    UnFollowKeepsInv(t1, u, v);
    var t := UnFollow(t1, u, v).0;
    SwitchBack(s.edges, (u, v), t1.edges[(u, v)], t.edges[(u, v)]);
    assert t.edges == s.edges[(u, v) := t1.edges[(u, v)]][(u, v) := t.edges[(u, v)]];
    SameCounts(s, t);
  }

  lemma SameCounts(s: State, t: State)
    requires Conserved(s.edges, s.counts) && Conserved(t.edges, t.counts)
    requires forall w :: Follows(t.edges, w) == Follows(s.edges, w) && Fans(t.edges, w) == Fans(s.edges, w)
    ensures forall w :: CountOf(t.counts, w) == CountOf(s.counts, w)
  {
  }

  /**
   What a Follow leaves of an existing list: at most 1000 members, exactly the highest ones, and
   while the sentinel is still there nobody was dropped.
   */
  lemma FollowTrimsToNewest(sets: Store, key: Key, neighbours: set<int>, score: int, k: int)
    requires key in sets && ListOk(sets[key], neighbours) && score > 0 && k > 0
    ensures var before := sets[key][k := score];
      var after := Get(AddToList(sets, key, score, k), key);
      && after == Top(before, CACHE_MAX)
      && |after| == Min(CACHE_MAX, |before|)
      && (forall i, j :: i in after && j in before && j !in after ==> Above(Entry(before[i], i), Entry(before[j], j)))
      && (SENTINEL in after ==> after == before)
  {
    var before := sets[key][k := score];
    TopIsHighest(before, CACHE_MAX);
    if SENTINEL in before {
      SentinelGoesFirst(before, CACHE_MAX);
    }
  }
}
