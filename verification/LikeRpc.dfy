/** The Thumbup request itself, from the reservation to the answer. */
module LikeRpc {
  import opened LikeRecords
  import opened Reservation
  import LikeConfluence
  import LikeConsumer
  import OptimisticCount

  /** Which calls of one request have their effect, and for the script and the push which replies arrive. */
  datatype Env = Env(reserveApplied: bool, reserveSeen: bool, recordOk: bool, countOk: bool,
                     pushApplied: bool, pushSeen: bool, delOk: bool, setOk: bool)

  predicate Reserves(env: Env) {
    env.reserveApplied && env.reserveSeen
  }

  predicate Pushed(env: Env) {
    env.pushApplied && env.pushSeen
  }

  datatype Reply = Counted(count: Count) | Failure

  /** The step the only request of a machine takes next. */
  function StepOf(phase: Phase, found: Found, env: Env): Step
    requires phase != Done
  {
    match phase
    case Fresh => Reserve(0, env.reserveApplied, env.reserveSeen)
    case Reserved => ReadRecord(0, env.recordOk, found, env.delOk)
    case RecordRead => ReadCount(0, env.countOk, env.delOk)
    case CountRead => Push(0, env.pushApplied, env.pushSeen, env.delOk)
    case Sent => MarkDone(0, env.setOk)
  }

  function StepsLeft(phase: Phase): nat {
    match phase
    case Fresh => 5
    case Reserved => 4
    case RecordRead => 3
    case CountRead => 2
    case Sent => 1
    case Done => 0
  }

  /** A machine of one request runs to its end with nobody in between. */
  function Alone(s: State, found: Found, env: Env): State
    requires |s.requests| == 1
    decreases StepsLeft(s.requests[0].phase)
  {
    if s.requests[0].phase == Done then s
    else Alone(Next(s, StepOf(s.requests[0].phase, found, env)), found, env)
  }

  function One(slots: Slots, m: Msg, phase: Phase, owns: bool, log: seq<Msg>): State {
    State(slots, [Request(m, phase, owns)], log)
  }

  /** The key and the queue after an undisturbed request, by what it meets. */
  function Outcome(slots: Slots, log: seq<Msg>, m: Msg, found: Found, env: Env): (Slots, seq<Msg>) {
    var (reserved, verdict) := ReserveScript(slots, m.key, m.likeType);
    var owns := Reserves(env) && verdict == Granted;
    var held := if env.reserveApplied then reserved else slots;
    var released := if owns && env.delOk then held - {m.key} else held;
    if Reserves(env) && verdict == Duplicate then (slots, log)
    else if !env.recordOk then (released, log)
    else if found == Record(m.likeType) then (held, log)
    else if !env.countOk then (released, log)
    else if !Pushed(env) then (released, if env.pushApplied then log + [m] else log)
    else (if owns && env.setOk then held[m.key := Finished(m.likeType)] else held, log + [m])
  }

  lemma FromSent(slots: Slots, log: seq<Msg>, m: Msg, owns: bool, found: Found, env: Env)
    ensures Alone(One(slots, m, Sent, owns, log), found, env) ==
      One(if owns && env.setOk then slots[m.key := Finished(m.likeType)] else slots, m, Done, owns, log)
  {
    var q := Request(m, Sent, owns);
    assert [q][0 := q.(phase := Done)] == [Request(m, Done, owns)];
  }

  function Released(slots: Slots, k: Key, owns: bool, env: Env): Slots {
    if owns && env.delOk then slots - {k} else slots
  }

  lemma FromCountRead(slots: Slots, log: seq<Msg>, m: Msg, owns: bool, found: Found, env: Env)
    ensures Alone(One(slots, m, CountRead, owns, log), found, env) ==
      if Pushed(env) then Alone(One(slots, m, Sent, owns, log + [m]), found, env)
      else One(Released(slots, m.key, owns, env), m, Done, owns, if env.pushApplied then log + [m] else log)
  {
    var q := Request(m, CountRead, owns);
    assert [q][0 := q.(phase := Sent)] == [Request(m, Sent, owns)];
    assert [q][0 := q.(phase := Done)] == [Request(m, Done, owns)];
  }

  lemma FromRecordRead(slots: Slots, log: seq<Msg>, m: Msg, owns: bool, found: Found, env: Env)
    ensures Alone(One(slots, m, RecordRead, owns, log), found, env) ==
      if env.countOk then Alone(One(slots, m, CountRead, owns, log), found, env)
      else One(Released(slots, m.key, owns, env), m, Done, owns, log)
  {
    var q := Request(m, RecordRead, owns);
    assert [q][0 := q.(phase := CountRead)] == [Request(m, CountRead, owns)];
    assert [q][0 := q.(phase := Done)] == [Request(m, Done, owns)];
  }

  lemma FromReserved(slots: Slots, log: seq<Msg>, m: Msg, owns: bool, found: Found, env: Env)
    ensures Alone(One(slots, m, Reserved, owns, log), found, env) ==
      if !env.recordOk then One(Released(slots, m.key, owns, env), m, Done, owns, log)
      else if found == Record(m.likeType) then One(slots, m, Done, owns, log)
      else Alone(One(slots, m, RecordRead, owns, log), found, env)
  {
    var q := Request(m, Reserved, owns);
    assert [q][0 := q.(phase := RecordRead)] == [Request(m, RecordRead, owns)];
    assert [q][0 := q.(phase := Done)] == [Request(m, Done, owns)];
  }

  lemma FromFresh(slots: Slots, log: seq<Msg>, m: Msg, found: Found, env: Env)
    ensures Alone(One(slots, m, Fresh, false, log), found, env) ==
      var (reserved, verdict) := ReserveScript(slots, m.key, m.likeType);
      if !Reserves(env) then
        Alone(One(if env.reserveApplied then reserved else slots, m, Reserved, false, log), found, env)
      else if verdict == Duplicate then One(slots, m, Done, false, log)
      else Alone(One(reserved, m, Reserved, verdict == Granted, log), found, env)
  {
    hide ReserveScript;
    var q := Request(m, Fresh, false);
    var owns := ReserveScript(slots, m.key, m.likeType).1 == Granted;
    assert [q][0 := q.(phase := Done)] == [Request(m, Done, false)];
    assert [q][0 := q.(phase := Reserved)] == [Request(m, Reserved, false)];
    assert [q][0 := q.(phase := Reserved, owns := owns)] == [Request(m, Reserved, owns)];
  }

  /** The machine of a single request does what the request does. */
  lemma AloneIs(slots: Slots, log: seq<Msg>, m: Msg, found: Found, env: Env)
    ensures var end := Alone(One(slots, m, Fresh, false, log), found, env);
      && end.requests != [] && end.requests[0].phase == Done
      && (end.slots, end.log) == Outcome(slots, log, m, found, env)
  {
    hide Alone, ReserveScript;
    var (reserved, verdict) := ReserveScript(slots, m.key, m.likeType);
    var held, owns := if env.reserveApplied then reserved else slots, Reserves(env) && verdict == Granted;
    FromFresh(slots, log, m, found, env);
    FromReserved(held, log, m, owns, found, env);
    FromRecordRead(held, log, m, owns, found, env);
    FromCountRead(held, log, m, owns, found, env);
    FromSent(held, log + [m], m, owns, found, env);
  }

  const ALL_OK: Env := Env(true, true, true, true, true, true, true, true)

  function FoundIn(r: Records, k: Key): Found {
    if k in r then Record(r[k]) else NotFound
  }

  /**
   Whether a request gets its way. Some messages are still pending, and the record is read before
   they are consumed: the type requested stands in the end exactly when the consumer accepts it and
   it is pushed, neither reserved nor recorded, or when the messages before it say so anyway.
   */
  lemma LastRequestWinsIff(slots: Slots, r: Records, pending: seq<Msg>, m: Msg, env: Env)
    ensures var found, types := FoundIn(r, m.key), LikeConfluence.TypesFor(pending, m.key);
      var log := Outcome(slots, pending, m, found, env).1;
      FoundIn(Replay(r, log), m.key) == Record(m.likeType) <==>
        || (&& Valid(m) && found != Record(m.likeType)
            && !(Reserves(env) && TypeOf(slots, m.key) == Record(m.likeType))
            && env.recordOk && env.countOk && env.pushApplied)
        || (if types != [] then types[|types| - 1] == m.likeType else found == Record(m.likeType))
  {
    hide Replay, Valid, Outcome, LikeConfluence.TypesFor;
    PushedMessage(slots, pending, m, FoundIn(r, m.key), env);
    ReplayEnd(r, pending, m);
    LikeConfluence.LastWriteWins(r, pending, m.key);
    assert pending + [] == pending;
  }

  lemma PushedMessage(slots: Slots, log: seq<Msg>, m: Msg, found: Found, env: Env)
    ensures Outcome(slots, log, m, found, env).1 == log +
      if found != Record(m.likeType) && !(Reserves(env) && TypeOf(slots, m.key) == Record(m.likeType))
         && env.recordOk && env.countOk && env.pushApplied
      then [m] else []
  {
  }

  /**
   The last request can lose to its own old key. Up, down, up again before the first key expires: each
   message is consumed before the next request, yet the record ends as down.
   */
  lemma ThirdRequestIsLost(k: Key)
    requires ValidKey(k)
    ensures var up, down := Msg(k, THUMB_UP), Msg(k, THUMB_DOWN);
      var (s1, log1) := Outcome(map[], [], up, NotFound, ALL_OK);
      var (s2, log2) := Outcome(s1, log1, down, Record(THUMB_UP), ALL_OK);
      var (s3, log3) := Outcome(s2, log2, up, Record(THUMB_DOWN), ALL_OK);
      && Replay(map[], log1) == map[k := THUMB_UP]
      && Replay(map[], log2) == map[k := THUMB_DOWN]
      && Replay(map[], log3) == map[k := THUMB_DOWN]
  {
    var up, down := Msg(k, THUMB_UP), Msg(k, THUMB_DOWN);
    ReplayEnd(map[], [], up);
    ReplayEnd(map[], [up], down);
    assert [] + [up] == [up] && [up] + [down] == [up, down];
  }

  /**
   And it can lose to a record that is behind. Up is recorded and down is pending when up is
   requested again: no key is held, but the record answers for the request, and down stands.
   */
  lemma StaleRecordWins(k: Key)
    requires ValidKey(k)
    ensures var up, down := Msg(k, THUMB_UP), Msg(k, THUMB_DOWN);
      var r := map[k := THUMB_UP];
      var log := Outcome(map[], [down], up, FoundIn(r, k), ALL_OK).1;
      Replay(r, log) == map[k := THUMB_DOWN]
  {
    var r, down := map[k := THUMB_UP], Msg(k, THUMB_DOWN);
    ReplayEnd(r, [], down);
    assert [] + [down] == [down];
  }

  /**
   A request whose type is recorded and whose count cannot be read fails without giving its key
   back. Until the key expires, requests of that type are turned away whatever the record says by then.
   */
  lemma FailedRequestKeepsKey(slots: Slots, log: seq<Msg>, m: Msg, env: Env, later: Found)
    requires m.key !in slots && Reserves(env) && env.recordOk && !env.countOk
    ensures var (held, log') := Outcome(slots, log, m, Record(m.likeType), env);
      && held == slots[m.key := Processing(m.likeType)] && log' == log
      && Outcome(held, log, m, later, ALL_OK) == (held, log)
  {
  }

  /**
   What becomes of the key. A key that is there stays as it is. Otherwise the request holds it as
   processing, finished after its push, and gives it back after a failure; it leaves the key behind
   when it does not know that it holds it, and when its type is recorded already.
   */
  lemma WhatBecomesOfKey(slots: Slots, log: seq<Msg>, m: Msg, found: Found, env: Env)
    ensures var k, t := m.key, m.likeType;
      Outcome(slots, log, m, found, env).0 ==
        if k in slots || !env.reserveApplied then slots
        else if !env.reserveSeen || (env.recordOk && found == Record(t)) then slots[k := Processing(t)]
        else if env.recordOk && env.countOk && env.pushApplied && env.pushSeen then
          slots[k := if env.setOk then Finished(t) else Processing(t)]
        else if env.delOk then slots
        else slots[k := Processing(t)]
  {
    var (reserved, verdict) := ReserveScript(slots, m.key, m.likeType);
    assert m.key !in slots ==> reserved - {m.key} == slots;
  }

  class Thumbups {
    var slots: Slots
    var queue: seq<Msg>
    const tables: LikeConsumer.Tables

    constructor (tables: LikeConsumer.Tables)
      ensures this.tables == tables && slots == map[] && queue == []
    {
      this.tables := tables;
      slots, queue := map[], [];
    }

    /** Gives the key back after a failure, if this request holds it. */
    method ReleaseKey(k: Key, owns: bool, delOk: bool)
      modifies this`slots
      ensures slots == if owns && delOk then old(slots) - {k} else old(slots)
    {
      if owns && delOk {
        slots := slots - {k};
      }
    }

    /**
     Thumbup: key and queue move as the machine of a single request says. An answer after a push
     is the optimistic count; any other answer is the count as it stands.
     */
    method Thumbup(m: Msg, env: Env) returns (r: Reply)
      requires tables.Valid()
      modifies this
      ensures var end := Alone(One(old(slots), m, Fresh, false, old(queue)), FoundIn(tables.records, m.key), env);
        end.requests != [] && end.requests[0].phase == Done && end.slots == slots && end.log == queue
      ensures queue == old(queue) +
        if env.recordOk && env.countOk && env.pushApplied && FoundIn(tables.records, m.key) != Record(m.likeType)
           && !(Reserves(env) && m.key in old(slots) && old(slots)[m.key].likeType == m.likeType)
        then [m] else []
      ensures var k, t, found := m.key, m.likeType, FoundIn(tables.records, m.key);
        slots ==
        if k in old(slots) || !env.reserveApplied then old(slots)
        else if !env.reserveSeen || (env.recordOk && found == Record(t)) then old(slots)[k := Processing(t)]
        else if env.recordOk && env.countOk && env.pushApplied && env.pushSeen then
          old(slots)[k := if env.setOk then Finished(t) else Processing(t)]
        else if env.delOk then old(slots)
        else old(slots)[k := Processing(t)]
      ensures r == Failure <==>
        if Reserves(env) && TypeOf(old(slots), m.key) == Record(m.likeType) then !env.countOk
        else !env.recordOk || !env.countOk
             || (FoundIn(tables.records, m.key) != Record(m.likeType) && !Pushed(env))
      ensures queue != old(queue) && r != Failure ==>
        && OptimisticCount.Pushed(tables.records, m)
        && r == Counted(OptimisticCount.Answer(tables.records, tables.counts, m))
      ensures queue == old(queue) && r != Failure ==> r == Counted(CountOf(tables.counts, m.key.on))
      ensures r == Failure && m.key !in old(slots) && env.reserveApplied && env.delOk ==>
        (m.key in slots <==>
          !env.reserveSeen || (env.recordOk && FoundIn(tables.records, m.key) == Record(m.likeType)))
    {
      hide Alone, LikeRecords.Consistent;
      AloneIs(slots, queue, m, FoundIn(tables.records, m.key), env);
      WhatBecomesOfKey(slots, queue, m, FoundIn(tables.records, m.key), env);
      var k, t := m.key, m.likeType;
      var owns := false;
      if env.reserveApplied {
        var (reserved, verdict) := ReserveScript(slots, k, t);
        slots := reserved;
        if env.reserveSeen {
          if verdict == Duplicate {
            r := QueryCount(k.on, env.countOk);
            return;
          }
          owns := verdict == Granted;
        }
      }
      var found := FoundIn(tables.records, k);
      if !env.recordOk {
        ReleaseKey(k, owns, env.delOk);
        return Failure;
      }
      if found == Record(t) {
        r := QueryCount(k.on, env.countOk);
        return;
      }
      var delta := if found == NotFound then InsertDelta(t) else SwitchDelta(found.likeType, t);
      var state := QueryCount(k.on, env.countOk);
      if state == Failure {
        ReleaseKey(k, owns, env.delOk);
        return Failure;
      }
      if env.pushApplied {
        queue := queue + [m];
      }
      if !Pushed(env) {
        ReleaseKey(k, owns, env.delOk);
        return Failure;
      }
      if owns && env.setOk {
        slots := slots[k := Finished(t)];
      }
      r := Counted(Count(Max(0, state.count.like + delta.like), Max(0, state.count.dislike + delta.dislike)));
    }

    method QueryCount(o: Obj, ok: bool) returns (r: Reply)
      ensures r == if ok then Counted(CountOf(tables.counts, o)) else Failure
    {
      if !ok {
        return Failure;
      }
      r := Counted(if o in tables.counts then tables.counts[o] else Count(0, 0));
    }
  }
}
