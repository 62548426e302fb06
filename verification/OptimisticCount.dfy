/**
 The counts that Thumbup answers with before the consumer has applied its message, compared with
 the counts right after the consumer has.
 */
module OptimisticCount {
  import opened LikeRecords

  /** The counts Thumbup returns for a request it pushes, from one committed state. */
  function Answer(r: Records, c: Counts, m: Msg): Count {
    Clamped(CountOf(c, m.key.on), RecordDelta(r, m))
  }

  /** The request is pushed unless the record already has its type. */
  predicate Pushed(r: Records, m: Msg) {
    m.key !in r || r[m.key] != m.likeType
  }

  /** The pending messages of other users on the same object. */
  function OfOthers(pending: seq<Msg>, k: Key): seq<Msg> {
    if pending == [] then []
    else
      var m := pending[|pending| - 1];
      OfOthers(pending[..|pending| - 1], k) + if Valid(m) && m.key.on == k.on && m.key != k then [m] else []
  }

  predicate Within(a: Count, b: Count, n: int) {
    -n <= a.like - b.like <= n && -n <= a.dislike - b.dislike <= n
  }

  /** One message of another user moves each number of the object by at most one. */
  lemma OneMessage(r: Records, k: Key, t: int, m: Msg)
    requires RecordsOk(r) && IsLikeType(t) && Valid(m) && m.key != k
    ensures After(r, m)[k := t] == r[k := t][m.key := m.likeType]
    ensures Within(Tally(r[k := t], k.on), Tally(After(r, m)[k := t], k.on), if m.key.on == k.on then 1 else 0)
  {
    hide Tally;
    if m.key.on == k.on {
      TallyMoves(r[k := t], m);
    } else {
      TallyElsewhere(r[k := t], m.key, m.likeType, k.on);
    }
  }

  lemma {:induction false} PendingDrift(r: Records, k: Key, t: int, pending: seq<Msg>)
    requires RecordsOk(r) && IsLikeType(t)
    ensures Within(Tally(r[k := t], k.on), Tally(Replay(r, pending)[k := t], k.on), |OfOthers(pending, k)|)
  {
    hide Tally;
    if pending != [] {
      var front, m := pending[..|pending| - 1], pending[|pending| - 1];
      PendingDrift(r, k, t, front);
      ReplayKeepsRecordsOk(r, front);
      if Valid(m) && m.key != k {
        OneMessage(Replay(r, front), k, t, m);
      } else {
        assert After(Replay(r, front), m)[k := t] == Replay(r, front)[k := t];
      }
    }
  }

  /**
   The answer is off by at most the number of pending messages of other users on the object, so it
   is exact when there are none, however many of the user's own are pending.
   */
  lemma AnswerIsBounded(r: Records, c: Counts, m: Msg, pending: seq<Msg>, r': Records, c': Counts)
    requires Consistent(r, c) && Valid(m)
    requires r' == Replay(r, pending + [m]) && Consistent(r', c')
    ensures Within(Answer(r, c, m), CountOf(c', m.key.on), |OfOthers(pending, m.key)|)
  {
    hide Tally;
    ClampIsIdle(r, c, m);
    ReplayEnd(r, pending, m);
    CountIsTally(r', c', m.key.on);
    PendingDrift(r, m.key, m.likeType, pending);
  }

  /**
   Thumbup validates nothing itself. With nothing pending, the answer to a pushed request is exact
   exactly when the consumer accepts the message.
   */
  lemma AnswerIsExactIff(r: Records, c: Counts, m: Msg, c': Counts)
    requires Consistent(r, c) && Pushed(r, m) && Consistent(After(r, m), c')
    ensures Answer(r, c, m) == CountOf(c', m.key.on) <==> Valid(m)
  {
    hide Tally;
    CountIsTally(r, c, m.key.on);
    CountIsTally(After(r, m), c', m.key.on);
    if Valid(m) {
      ClampIsIdle(r, c, m);
    }
  }
}
