/**
 The like consumer: one transaction per message over like_record and like_count. Transactions of
 other consumers may commit in the two windows between a lookup that finds nothing and the insert
 that follows it, and have such windows themselves; any statement may fail and roll back.
 */
module LikeConsumer {
  import opened Wrappers
  import opened LikeRecords

  datatype Step =
    | FindRecord | UpdateRecord | InsertRecord | RereadRecord
    | FindCount | InsertCount | RereadCount | UpdateCount

  datatype Fault = NoFault | FaultAt(step: Step)

  datatype Error = DbError

  /**
   One message and its transaction: what others commit before its record is inserted, what they
   commit before its count row is inserted, and the statement that fails, if any.
   */
  datatype Tx = Tx(msg: Msg, beforeRecord: seq<Tx>, beforeCount: seq<Tx>, fault: Fault)

  /** All messages of these transactions and of the ones inside their windows. */
  ghost function Messages(txs: seq<Tx>): multiset<Msg>
    decreases txs
  {
    if txs == [] then multiset{}
    else
      multiset{txs[0].msg} + Messages(txs[0].beforeRecord) + Messages(txs[0].beforeCount) + Messages(txs[1..])
  }

  /**
   Once a transaction has inserted its record, the unique key keeps every other transaction away
   from that key until it commits.
   */
  ghost predicate Lockable(tx: Tx)
    decreases tx
  {
    && (forall m :: m in Messages(tx.beforeCount) ==> m.key != tx.msg.key)
    && (forall i :: 0 <= i < |tx.beforeRecord| ==> Lockable(tx.beforeRecord[i]))
    && (forall i :: 0 <= i < |tx.beforeCount| ==> Lockable(tx.beforeCount[i]))
  }

  ghost predicate LockRules(tx: Tx) {
    && (forall m :: m in Messages(tx.beforeCount) ==> m.key != tx.msg.key)
    && (forall i :: 0 <= i < |tx.beforeRecord| ==> Lockable(tx.beforeRecord[i]))
    && (forall i :: 0 <= i < |tx.beforeCount| ==> Lockable(tx.beforeCount[i]))
  }

  lemma LockableMeans(tx: Tx)
    requires Lockable(tx)
    ensures LockRules(tx)
  {
  }

  lemma MessagesOfOne(tx: Tx)
    ensures Messages([tx]) == multiset{tx.msg} + Messages(tx.beforeRecord) + Messages(tx.beforeCount)
  {
    assert [tx][1..] == [];
  }

  lemma MessagesFrom(txs: seq<Tx>, i: nat)
    requires i < |txs|
    ensures Messages(txs[i..]) == Messages([txs[i]]) + Messages(txs[i + 1..])
  {
    MessagesOfOne(txs[i]);
    assert txs[i..][1..] == txs[i + 1..];
  }

  /** Whether an undisturbed transaction for a valid message executes a statement. */
  ghost predicate Executes(r: Records, c: Counts, m: Msg, step: Step) {
    var changes := m.key !in r || r[m.key] != m.likeType;
    match step
    case FindRecord => true
    case InsertRecord => m.key !in r
    case UpdateRecord => changes && m.key in r
    case FindCount => changes
    case InsertCount => changes && m.key.on !in c
    case UpdateCount => changes && m.key.on in c
    case _ => false
  }

  lemma BothFit(a: seq<Msg>, b: seq<Msg>, fitsA: multiset<Msg>, fitsB: multiset<Msg>)
    requires multiset(a) <= fitsA && multiset(b) <= fitsB
    ensures multiset(a + b) <= fitsA + fitsB
  {
  }

  lemma SameTypeStays(r: Records, log: seq<Msg>, m: Msg)
    requires m.key in Replay(r, log) && Replay(r, log)[m.key] == m.likeType
    ensures Replay(r, log + [m]) == Replay(r, log)
  {
    ReplayEnd(r, log, m);
  }

  /** The same for the lookup and insert of the record, and for the writes after them. */
  ghost predicate FindFails(r: Records, k: Key, fault: Fault) {
    fault == FaultAt(FindRecord) || (k !in r && fault == FaultAt(InsertRecord))
  }

  ghost predicate WriteFails(r: Records, c: Counts, m: Msg, fault: Fault) {
    && (m.key !in r || r[m.key] != m.likeType)
    && (|| fault == FaultAt(FindCount)
        || (m.key in r && fault == FaultAt(UpdateRecord))
        || fault == FaultAt(if m.key.on in c then UpdateCount else InsertCount))
  }

  lemma FailsIffExecuted(r: Records, c: Counts, m: Msg, fault: Fault)
    ensures FindFails(r, m.key, fault) || WriteFails(r, c, m, fault) <==> fault.FaultAt? && Executes(r, c, m, fault.step)
  {
  }

  /** A transaction that fails with nobody in its windows has committed nothing. */
  lemma NobodyElse(tx: Tx, committed: seq<Msg>)
    requires multiset(committed) <= Messages(tx.beforeRecord) + Messages(tx.beforeCount)
    requires tx.beforeRecord == [] && tx.beforeCount == []
    ensures committed == []
  {
    assert |multiset(committed)| == 0;
  }

  class Tables {
    var records: Records
    var counts: Counts

    ghost predicate Valid()
      reads this
    {
      Consistent(records, counts)
    }

    constructor ()
      ensures Valid() && records == map[]
    {
      records, counts := map[], map[];
    }

    /**
     Consume: commits the message or leaves the tables to the others. Likes are type 0, dislikes
     type 1. Messages with an id, user, type or business that cannot be are dropped without an error.
     */
    method Consume(tx: Tx) returns (error: Option<Error>, ghost committed: seq<Msg>)
      requires Valid() && Lockable(tx)
      modifies this
      ensures Valid()
      ensures forall o :: o in counts ==>
        counts[o].like == |Rows(records, o, 0)| && counts[o].dislike == |Rows(records, o, 1)|
      ensures forall o :: o in counts <==> exists k :: k in records && k.on == o
      ensures records == Replay(old(records), committed)
      ensures var m := tx.msg;
        if m.key.on.id > 0 && m.key.user > 0 && (m.likeType == 0 || m.likeType == 1)
           && exists i :: 0 <= i < |m.key.on.biz| && !IsSpace(m.key.on.biz[i])
        then
          error.None? ==>
            && committed != [] && committed[|committed| - 1] == m
            && m.key in records && records[m.key] == m.likeType
        else
          error.None? && committed == [] && records == old(records) && counts == old(counts)
      ensures multiset(committed) <= Messages([tx])
      ensures error.Some? ==>
        multiset(committed) <= Messages(tx.beforeRecord) + Messages(tx.beforeCount)
      ensures tx.msg.key in old(records) ==> |committed| <= 1
      ensures tx.fault == NoFault ==> error == None
      ensures LikeRecords.Valid(tx.msg) && tx.beforeRecord == [] && tx.beforeCount == [] ==>
        (error.Some? <==> tx.fault.FaultAt? && Executes(old(records), old(counts), tx.msg, tx.fault.step))
      ensures tx.beforeRecord == [] && tx.beforeCount == [] && error.Some? ==> records == old(records)
      decreases tx, 1
    {
      hide Consistent, Replay, Lockable, Messages, LikeRecords.Valid, Rows, Executes, FindFails, WriteFails;
      ValidMeans(tx.msg);
      ReplayEnd(records, [], tx.msg);
      MessagesOfOne(tx);
      if !LikeRecords.Valid(tx.msg) {
        CountsInNumbers(records, counts);
        return None, [];
      }
      FailsIffExecuted(records, counts, tx.msg, tx.fault);
      error, committed := Transact(tx);
      CountsInNumbers(records, counts);
      if error.Some? && tx.beforeRecord == [] && tx.beforeCount == [] {
        NobodyElse(tx, committed);
      }
    }

    /** The transaction of a valid message. */
    method Transact(tx: Tx) returns (error: Option<Error>, ghost committed: seq<Msg>)
      requires Valid() && Lockable(tx) && LikeRecords.Valid(tx.msg)
      modifies this
      ensures Valid()
      ensures records == Replay(old(records), committed)
      ensures error.None? ==> committed != [] && committed[|committed| - 1] == tx.msg
      ensures error.None? ==> tx.msg.key in records && records[tx.msg.key] == tx.msg.likeType
      ensures multiset(committed) <= Messages([tx])
      ensures error.Some? ==>
        multiset(committed) <= Messages(tx.beforeRecord) + Messages(tx.beforeCount)
      ensures tx.msg.key in old(records) ==> |committed| <= 1
      ensures tx.fault == NoFault ==> error == None
      ensures tx.beforeRecord == [] && tx.beforeCount == [] ==>
        (error.Some? <==>
          FindFails(old(records), tx.msg.key, tx.fault) || WriteFails(old(records), old(counts), tx.msg, tx.fault))
      decreases tx, 0
    {
      hide FindFails, Consistent, Replay, Lockable, Messages, LikeRecords.Valid, After, IsLikeType;
      ReplayEnd(records, [], tx.msg);
      LockableMeans(tx);
      MessagesOfOne(tx);
      var key, t := tx.msg.key, tx.msg.likeType;
      RecordHasCount(records, counts, key);
      var failure, oldType;
      failure, oldType, committed := FindOrInsertRecord(key, tx.beforeRecord, tx.fault);
      if failure.Some? {
        return failure, committed;
      }
      if oldType == Some(t) {
        assert tx.beforeRecord == [] ==> !WriteFails(old(records), old(counts), tx.msg, tx.fault);
        SameTypeStays(old(records), committed, tx.msg);
        return None, committed + [tx.msg];
      }
      ghost var others;
      hide WriteFails;
      error, others := WriteRecordAndCount(tx.msg, oldType, tx.beforeCount, tx.fault);
      ReplayConcat(old(records), committed, others);
      BothFit(committed, others, Messages(tx.beforeRecord),
              Messages(tx.beforeCount) + if error.None? then multiset{tx.msg} else multiset{});
      committed := committed + others;
    }

    /** The write of the record and of the count row that belongs to it, or neither. */
    method WriteRecordAndCount(msg: Msg, oldType: Option<int>, window: seq<Tx>, fault: Fault)
      returns (error: Option<Error>, ghost committed: seq<Msg>)
      requires Valid() && LikeRecords.Valid(msg)
      requires oldType == if msg.key in records then Some(records[msg.key]) else None
      requires oldType != Some(msg.likeType)
      requires forall i :: 0 <= i < |window| ==> Lockable(window[i])
      requires forall m :: m in Messages(window) ==> m.key != msg.key
      modifies this
      ensures Valid() && records == Replay(old(records), committed)
      ensures error.None? ==> committed != [] && committed[|committed| - 1] == msg
      ensures error.None? ==> msg.key in records && records[msg.key] == msg.likeType
      ensures window == [] ==>
        (error.Some? <==> WriteFails(old(records), old(counts), msg, fault))
      ensures multiset(committed) <= Messages(window) + if error.None? then multiset{msg} else multiset{}
      ensures msg.key in old(records) ==> |committed| <= 1
      ensures fault == NoFault ==> error == None
      decreases window, 2
    {
      hide Consistent, Replay, Clamped, CountOf, Lockable, Messages;
      RecordHasCount(records, counts, msg.key);
      ReplayEnd(records, [], msg);
      if oldType.Some? && fault == FaultAt(UpdateRecord) {
        return Some(DbError), [];
      }
      var delta := if oldType.Some? then SwitchDelta(oldType.value, msg.likeType) else InsertDelta(msg.likeType);
      ghost var before := records;
      ghost var others;
      var write;
      error, write, others := ApplyCountDelta(msg.key.on, delta, window, fault);
      if error.Some? {
        return error, others;
      }
      ReplayElsewhere(before, others, msg.key);
      Commit(msg, write.value);
      ReplayEnd(before, others, msg);
      committed := others + [msg];
    }

    method Commit(msg: Msg, write: Count)
      requires Valid() && LikeRecords.Valid(msg)
      requires write == Clamped(CountOf(counts, msg.key.on), RecordDelta(records, msg))
      modifies this
      ensures Valid() && records == After(old(records), msg)
    {
      hide Consistent;
      WriteBoth(records, counts, msg);
      records := records[msg.key := msg.likeType];
      counts := counts[msg.key.on := write];
    }

    /**
     The lookup of the record and, when there is none, the insert; a duplicate entry leads to a
     second lookup. The old type found is the one in the tables, if any.
     */
    method FindOrInsertRecord(key: Key, window: seq<Tx>, fault: Fault)
      returns (error: Option<Error>, oldType: Option<int>, ghost others: seq<Msg>)
      requires Valid() && forall i :: 0 <= i < |window| ==> Lockable(window[i])
      modifies this
      ensures Valid()
      ensures records == Replay(old(records), others) && multiset(others) <= Messages(window)
      ensures key in old(records) ==> others == []
      ensures error.None? ==> oldType == if key in records then Some(records[key]) else None
      ensures key in records ==> key.on in counts && IsLikeType(records[key])
      ensures window == [] ==> records == old(records) && counts == old(counts)
      ensures window == [] ==>
        (error.Some? <==> FindFails(old(records), key, fault))
      ensures fault == NoFault ==> error == None
      decreases window, 1
    {
      hide Consistent, Replay, Lockable, Messages;
      ReplayEnd(records, [], Msg(key, 0));
      RecordHasCount(records, counts, key);
      others := [];
      assert multiset(others) <= Messages(window);
      if fault == FaultAt(FindRecord) {
        return Some(DbError), None, [];
      }
      if key in records {
        return None, Some(records[key]), [];
      }
      others := ConsumeAll(window);
      RecordHasCount(records, counts, key);
      if fault == FaultAt(InsertRecord) {
        return Some(DbError), None, others;
      }
      if key !in records {
        return None, None, others;
      }
      // The insert reports a duplicate entry.
      if fault == FaultAt(RereadRecord) {
        return Some(DbError), None, others;
      }
      return None, Some(records[key]), others;
    }

    /** applyCountDelta: the count row to write, computed from what is found, clamped at zero. */
    method ApplyCountDelta(o: Obj, delta: Count, window: seq<Tx>, fault: Fault)
      returns (error: Option<Error>, write: Option<Count>, ghost others: seq<Msg>)
      requires Valid() && delta != Count(0, 0)
      requires forall i :: 0 <= i < |window| ==> Lockable(window[i])
      modifies this
      ensures Valid()
      ensures records == Replay(old(records), others) && multiset(others) <= Messages(window)
      ensures o in old(counts) ==> others == []
      ensures error.None? ==> write == Some(Clamped(CountOf(counts, o), delta))
      ensures window == [] ==> counts == old(counts)
      ensures window == [] ==>
        (error.Some? <==> fault == FaultAt(FindCount) || fault == FaultAt(if o in counts then UpdateCount else InsertCount))
      ensures fault == NoFault ==> error == None
      decreases window, 1
    {
      hide Consistent, Replay, Lockable, Messages;
      ReplayEnd(records, [], Msg(Key(o, 0), 0));
      others := [];
      assert multiset(others) <= Messages(window);
      if fault == FaultAt(FindCount) {
        return Some(DbError), None, [];
      }
      if o !in counts {
        others := ConsumeAll(window);
        if fault == FaultAt(InsertCount) {
          return Some(DbError), None, others;
        }
        if o !in counts {
          return None, Some(Count(Max(delta.like, 0), Max(delta.dislike, 0))), others;
        }
        // The insert reports a duplicate entry.
        if fault == FaultAt(RereadCount) {
          return Some(DbError), None, others;
        }
      }
      if fault == FaultAt(UpdateCount) {
        return Some(DbError), None, others;
      }
      var count := counts[o];
      write := Some(Count(Max(count.like + delta.like, 0), Max(count.dislike + delta.dislike, 0)));
      error := None;
    }

    /** Consume on one message after the other. */
    method ConsumeAll(txs: seq<Tx>) returns (ghost committed: seq<Msg>)
      requires Valid() && forall i :: 0 <= i < |txs| ==> Lockable(txs[i])
      modifies this
      ensures Valid()
      ensures records == Replay(old(records), committed)
      ensures multiset(committed) <= Messages(txs)
      ensures txs == [] ==> records == old(records) && counts == old(counts)
      decreases txs, 0
    {
      hide Consistent, Replay, Lockable, Messages;
      ReplayEnd(records, [], Msg(Key(Obj("", 0), 0), 0));
      committed := [];
      for i := 0 to |txs|
        invariant Valid()
        invariant records == Replay(old(records), committed)
        invariant multiset(committed) + Messages(txs[i..]) <= Messages(txs)
        invariant i == 0 ==> records == old(records) && counts == old(counts)
      {
        MessagesFrom(txs, i);
        ghost var more;
        var error;
        error, more := Consume(txs[i]);
        ReplayConcat(old(records), committed, more);
        committed := committed + more;
      }
    }
  }
}
