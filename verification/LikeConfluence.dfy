/** The tables after a log depend only on the order of the messages of each key: the last one wins. */
module LikeConfluence {
  import opened LikeRecords

  /** The types of the valid messages for one key, in log order. */
  ghost function TypesFor(log: seq<Msg>, k: Key): seq<int> {
    if log == [] then []
    else
      var m := log[|log| - 1];
      TypesFor(log[..|log| - 1], k) + if Valid(m) && m.key == k then [m.likeType] else []
  }

  /** Each record holds the type of the last valid message for its key. */
  lemma {:induction false} LastWriteWins(r: Records, log: seq<Msg>, k: Key)
    ensures k in Replay(r, log) <==> TypesFor(log, k) != [] || k in r
    ensures k in Replay(r, log) ==>
      var types := TypesFor(log, k);
      Replay(r, log)[k] == if types != [] then types[|types| - 1] else r[k]
  {
    if log != [] {
      LastWriteWins(r, log[..|log| - 1], k);
    }
  }

  lemma CountsAreDetermined(r: Records, c1: Counts, c2: Counts)
    requires CountsMatch(r, c1) && CountsMatch(r, c2)
    ensures c1 == c2
  {
    forall o
      ensures o in c1 <==> o in c2
      ensures o in c1 ==> c1[o] == c2[o]
    {
      if o in c1 {
        var k :| k in r && k.on == o;
      }
      if o in c2 {
        var k :| k in r && k.on == o;
      }
    }
  }

  /** Two logs that agree on the order within each key lead to the same records and counts. */
  lemma Confluence(r: Records, a: seq<Msg>, b: seq<Msg>, ca: Counts, cb: Counts)
    requires forall k :: TypesFor(a, k) == TypesFor(b, k)
    requires Consistent(Replay(r, a), ca) && Consistent(Replay(r, b), cb)
    ensures Replay(r, a) == Replay(r, b) && ca == cb
  {
    hide CountsMatch, RecordsOk;
    forall k
      ensures k in Replay(r, a) <==> k in Replay(r, b)
      ensures k in Replay(r, a) ==> Replay(r, a)[k] == Replay(r, b)[k]
    {
      LastWriteWins(r, a, k);
      LastWriteWins(r, b, k);
    }
    assert Replay(r, a) == Replay(r, b);
    CountsAreDetermined(Replay(r, a), ca, cb);
  }

  lemma {:induction false} TypesForConcat(a: seq<Msg>, b: seq<Msg>, k: Key)
    ensures TypesFor(a + b, k) == TypesFor(a, k) + TypesFor(b, k)
  {
    if b == [] {
      assert a + b == a;
    } else {
      var n := |b| - 1;
      assert (a + b)[..|a| + n] == a + b[..n];
      TypesForConcat(a, b[..n], k);
    }
  }

  lemma TypesForOne(m: Msg, k: Key)
    ensures TypesFor([m], k) == if Valid(m) && m.key == k then [m.likeType] else []
  {
    assert TypesFor([m][..0], k) == [];
  }

  /**
   A message delivered again after b changes nothing exactly when it is invalid or the last
   message for its key within b, if there is one, has its type.
   */
  lemma RedeliveryIff(r: Records, a: seq<Msg>, m: Msg, b: seq<Msg>)
    ensures Replay(r, a + [m] + b + [m]) == Replay(r, a + [m] + b) <==>
      !Valid(m) || (var types := TypesFor(b, m.key); types == [] || types[|types| - 1] == m.likeType)
  {
    var before := Replay(r, a + [m] + b);
    ReplayEnd(r, a + [m] + b, m);
    LastWriteWins(r, a + [m] + b, m.key);
    TypesForConcat(a + [m], b, m.key);
    TypesForConcat(a, [m], m.key);
    TypesForOne(m, m.key);
  }

  /** So redelivery before the next message of the same key is harmless, whatever follows. */
  lemma RedeliveryIsHarmless(r: Records, a: seq<Msg>, m: Msg, b: seq<Msg>, rest: seq<Msg>)
    requires TypesFor(b, m.key) == []
    ensures Replay(r, a + [m] + b + [m] + rest) == Replay(r, a + [m] + b + rest)
  {
    RedeliveryIff(r, a, m, b);
    ReplayConcat(r, a + [m] + b + [m], rest);
    ReplayConcat(r, a + [m] + b, rest);
  }
}
