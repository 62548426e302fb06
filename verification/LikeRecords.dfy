/**
 The like tables and what a log of messages means for them: each record holds the type of the last
 valid message for its key, and each count row holds the numbers of records of either type.
 */
module LikeRecords {
  const THUMB_UP: int := 0
  const THUMB_DOWN: int := 1

  /** The unique keys (biz_id, obj_id) and (biz_id, obj_id, user_id). */
  datatype Obj = Obj(biz: string, id: int)
  datatype Key = Key(on: Obj, user: int)

  datatype Msg = Msg(key: Key, likeType: int)

  datatype Count = Count(like: int, dislike: int)

  type Records = map<Key, int>
  type Counts = map<Obj, Count>

  // ---- pkg/deltalike ----

  function InsertDelta(likeType: int): Count {
    if likeType == THUMB_UP then Count(1, 0) else Count(0, 1)
  }

  function SwitchDelta(fromType: int, toType: int): Count {
    if fromType == toType then Count(0, 0)
    else if fromType == THUMB_UP && toType == THUMB_DOWN then Count(-1, 1)
    else Count(1, -1)
  }

  function Max(a: int, b: int): int {
    if a > b then a else b
  }

  /** count + delta, with both numbers kept from going below zero. */
  function Clamped(count: Count, delta: Count): Count {
    Count(Max(count.like + delta.like, 0), Max(count.dislike + delta.dislike, 0))
  }

  // ---- validateMsg ----

  /** The white space that strings.TrimSpace removes. */
  predicate IsSpace(c: char) {
    || '\t' <= c <= '\r' || c == ' ' || c == '\U{85}' || c == '\U{A0}' || c == '\U{1680}'
    || '\U{2000}' <= c <= '\U{200A}' || c == '\U{2028}' || c == '\U{2029}' || c == '\U{202F}'
    || c == '\U{205F}' || c == '\U{3000}'
  }

  predicate Blank(s: string) {
    forall i :: 0 <= i < |s| ==> IsSpace(s[i])
  }

  predicate ValidKey(k: Key) {
    !Blank(k.on.biz) && k.on.id > 0 && k.user > 0
  }

  predicate IsLikeType(t: int) {
    t == THUMB_UP || t == THUMB_DOWN
  }

  predicate Valid(m: Msg) {
    ValidKey(m.key) && IsLikeType(m.likeType)
  }

  /** The code points with the Unicode property White_Space, one by one. */
  lemma SpacesAre(c: char)
    ensures IsSpace(c) <==> c in {
      '\t', '\n', '\U{B}', '\U{C}', '\r', ' ', '\U{85}', '\U{A0}', '\U{1680}', '\U{2000}', '\U{2001}', '\U{2002}',
      '\U{2003}', '\U{2004}', '\U{2005}', '\U{2006}', '\U{2007}', '\U{2008}', '\U{2009}', '\U{200A}', '\U{2028}',
      '\U{2029}', '\U{202F}', '\U{205F}', '\U{3000}'}
  {
  }

  /** What is valid, field by field. */
  lemma ValidMeans(m: Msg)
    ensures Valid(m) <==>
      && m.key.on.id > 0 && m.key.user > 0 && (m.likeType == 0 || m.likeType == 1)
      && exists i :: 0 <= i < |m.key.on.biz| && !IsSpace(m.key.on.biz[i])
  {
  }

  // ---- The simple truth ----

  function After(r: Records, m: Msg): Records {
    if Valid(m) then r[m.key := m.likeType] else r
  }

  function Replay(r: Records, log: seq<Msg>): Records {
    if log == [] then r else After(Replay(r, log[..|log| - 1]), log[|log| - 1])
  }

  /** The records of one type on an object. */
  ghost function Rows(r: Records, o: Obj, t: int): set<Key> {
    set k | k in r && k.on == o && r[k] == t
  }

  ghost function Tally(r: Records, o: Obj): Count {
    Count(|Rows(r, o, THUMB_UP)|, |Rows(r, o, THUMB_DOWN)|)
  }

  /** The count rows that belong to the records: one for each object with a record. */
  ghost predicate CountsMatch(r: Records, c: Counts) {
    && (forall k :: k in r ==> k.on in c)
    && (forall o :: o in c ==> c[o] == Tally(r, o) && exists k :: k in r && k.on == o)
  }

  ghost predicate RecordsOk(r: Records) {
    forall k :: k in r ==> ValidKey(k) && IsLikeType(r[k])
  }

  ghost predicate Consistent(r: Records, c: Counts) {
    RecordsOk(r) && CountsMatch(r, c)
  }

  /** The counts in numbers: like counts the records of type 0 and dislike those of type 1. */
  lemma CountsInNumbers(r: Records, c: Counts)
    requires Consistent(r, c)
    ensures forall o :: o in c ==> c[o].like == |Rows(r, o, 0)| && c[o].dislike == |Rows(r, o, 1)|
    ensures forall o :: o in c <==> exists k :: k in r && k.on == o
  {
    hide Rows;
  }

  function CountOf(c: Counts, o: Obj): Count {
    if o in c then c[o] else Count(0, 0)
  }

  // ---- Records and counts move together ----

  lemma NoRowsNoTally(r: Records, o: Obj)
    requires forall k :: k in r ==> k.on != o
    ensures Tally(r, o) == Count(0, 0)
  {
    assert Rows(r, o, THUMB_UP) == {} && Rows(r, o, THUMB_DOWN) == {};
  }

  lemma CountIsTally(r: Records, c: Counts, o: Obj)
    requires CountsMatch(r, c)
    ensures CountOf(c, o) == Tally(r, o)
  {
    if o !in c {
      NoRowsNoTally(r, o);
    }
  }

  lemma RecordHasCount(r: Records, c: Counts, k: Key)
    requires Consistent(r, c)
    ensures k in r ==> k.on in c && IsLikeType(r[k])
  {
  }

  lemma TallyElsewhere(r: Records, k: Key, t: int, o: Obj)
    requires o != k.on
    ensures Tally(r[k := t], o) == Tally(r, o)
  {
    assert Rows(r[k := t], o, THUMB_UP) == Rows(r, o, THUMB_UP);
    assert Rows(r[k := t], o, THUMB_DOWN) == Rows(r, o, THUMB_DOWN);
  }

  /** What one record changes in the tally of its object. */
  function RecordDelta(r: Records, m: Msg): Count {
    if m.key in r then SwitchDelta(r[m.key], m.likeType) else InsertDelta(m.likeType)
  }

  lemma TallyMoves(r: Records, m: Msg)
    requires IsLikeType(m.likeType) && (m.key in r ==> IsLikeType(r[m.key]))
    ensures Tally(r[m.key := m.likeType], m.key.on) ==
      Count(Tally(r, m.key.on).like + RecordDelta(r, m).like, Tally(r, m.key.on).dislike + RecordDelta(r, m).dislike)
  {
    var k, t, o := m.key, m.likeType, m.key.on;
    var s := 1 - t;
    RowsMove(r, k, t, s);
    hide Rows;
    assert |Rows(r[k := t], o, t)| == |Rows(r, o, t)| + if k in Rows(r, o, t) then 0 else 1;
    assert |Rows(r[k := t], o, s)| == |Rows(r, o, s)| - if k in Rows(r, o, s) then 1 else 0;
  }

  lemma RowsMove(r: Records, k: Key, t: int, s: int)
    requires s != t
    ensures Rows(r[k := t], k.on, t) == Rows(r, k.on, t) + {k}
    ensures Rows(r[k := t], k.on, s) == Rows(r, k.on, s) - {k}
    ensures forall other: int :: k in Rows(r, k.on, other) <==> k in r && r[k] == other
  {
  }

  /** On matching tables the clamp never changes a value. */
  lemma ClampIsIdle(r: Records, c: Counts, m: Msg)
    requires Consistent(r, c) && Valid(m)
    ensures Clamped(CountOf(c, m.key.on), RecordDelta(r, m)) ==
      Count(CountOf(c, m.key.on).like + RecordDelta(r, m).like, CountOf(c, m.key.on).dislike + RecordDelta(r, m).dislike)
    ensures Clamped(CountOf(c, m.key.on), RecordDelta(r, m)) == Tally(r[m.key := m.likeType], m.key.on)
  {
    hide Tally;
    CountIsTally(r, c, m.key.on);
    TallyMoves(r, m);
    TallyIsNatural(r[m.key := m.likeType], m.key.on);
  }

  lemma TallyIsNatural(r: Records, o: Obj)
    ensures Tally(r, o).like >= 0 && Tally(r, o).dislike >= 0
  {
  }

  /** Writing a record together with its clamped count keeps the tables matching. */
  lemma WriteBoth(r: Records, c: Counts, m: Msg)
    requires Consistent(r, c) && Valid(m)
    ensures Consistent(After(r, m), c[m.key.on := Clamped(CountOf(c, m.key.on), RecordDelta(r, m))])
  {
    hide Tally, Clamped, RecordDelta;
    ClampIsIdle(r, c, m);
    var r', c' := After(r, m), c[m.key.on := Clamped(CountOf(c, m.key.on), RecordDelta(r, m))];
    forall o | o in c'
      ensures c'[o] == Tally(r', o) && exists k :: k in r' && k.on == o
    {
      if o == m.key.on {
        assert m.key in r';
      } else {
        TallyElsewhere(r, m.key, m.likeType, o);
        var k :| k in r && k.on == o;
        assert k in r';
      }
    }
  }

  // ---- Logs ----

  lemma {:induction false} ReplayConcat(r: Records, a: seq<Msg>, b: seq<Msg>)
    ensures Replay(r, a + b) == Replay(Replay(r, a), b)
  {
    if b == [] {
      assert a + b == a;
    } else {
      var n := |b| - 1;
      assert (a + b)[..|a| + n] == a + b[..n];
      ReplayConcat(r, a, b[..n]);
    }
  }

  lemma ReplayEnd(r: Records, log: seq<Msg>, m: Msg)
    ensures Replay(r, []) == r
    ensures Replay(r, log + [m]) == After(Replay(r, log), m)
  {
    assert (log + [m])[..|log|] == log;
  }

  /** A log without messages for a key leaves its record alone. */
  lemma {:induction false} ReplayElsewhere(r: Records, log: seq<Msg>, k: Key)
    requires forall m :: m in log ==> m.key != k
    ensures k in Replay(r, log) <==> k in r
    ensures k in r ==> Replay(r, log)[k] == r[k]
  {
    if log != [] {
      ReplayElsewhere(r, log[..|log| - 1], k);
    }
  }

  lemma {:induction false} ReplayKeepsRecordsOk(r: Records, log: seq<Msg>)
    requires RecordsOk(r)
    ensures RecordsOk(Replay(r, log))
  {
    if log != [] {
      ReplayKeepsRecordsOk(r, log[..|log| - 1]);
    }
  }
}
