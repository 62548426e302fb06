/**
 The two cached lists of an author's articles, by publish time and by like count, and what the row
 changes of the article table do to them.
 */
module ArticleSets {
  import opened Wrappers
  import opened Queues
  import opened RedisStore

  const SORT_PUBLISH_TIME: int := 0
  const SORT_LIKE_COUNT: int := 1

  datatype Status = Pending | NotPass | Visible | UserDeleted

  datatype Article = Article(author: int, status: Status, likeNum: int, publishTime: int)

  /** A row of the article table as a row change carries it: the id and the whole row. */
  type Change = (int, Article)

  function ScoreOf(a: Article, sortType: int): int {
    if sortType == SORT_LIKE_COUNT then a.likeNum else a.publishTime
  }

  predicate IsSortType(sortType: int) {
    sortType == SORT_PUBLISH_TIME || sortType == SORT_LIKE_COUNT
  }

  /** ZADD into a set that exists. */
  ghost function AddIfExists(sets: Store, key: Key, score: int, member: int): Store {
    if key in sets then Added(sets, key, score, member) else sets
  }

  ghost function AddToBoth(sets: Store, author: int, publishTime: int, likeNum: int, id: int): Store {
    AddIfExists(AddIfExists(sets, ArticlesKey(author, SORT_PUBLISH_TIME), publishTime, id),
                ArticlesKey(author, SORT_LIKE_COUNT), likeNum, id)
  }

  ghost function RemoveFromBoth(sets: Store, author: int, id: int): Store {
    Removed(Removed(sets, ArticlesKey(author, SORT_PUBLISH_TIME), id), ArticlesKey(author, SORT_LIKE_COUNT), id)
  }

  /** What articleOperate does to the sets for one row. */
  ghost function ApplyChange(sets: Store, change: Change): Store {
    var (id, a) := change;
    match a.status
    case Visible => AddToBoth(sets, a.author, a.publishTime, a.likeNum, id)
    case UserDeleted => RemoveFromBoth(sets, a.author, id)
    case _ => sets
  }

  ghost function ApplyChanges(sets: Store, changes: seq<Change>): Store {
    if changes == [] then sets
    else ApplyChange(ApplyChanges(sets, changes[..|changes| - 1]), changes[|changes| - 1])
  }

  /** Among the row changes keys run out of time. */
  datatype Event = RowChange(change: Change) | Expired(key: Key)

  ghost function After(sets: Store, events: seq<Event>): Store {
    if events == [] then sets
    else
      var before := After(sets, events[..|events| - 1]);
      match events[|events| - 1]
      case RowChange(change) => ApplyChange(before, change)
      case Expired(key) => before - {key}
  }

  function ChangesOf(events: seq<Event>): seq<Change> {
    if events == [] then []
    else
      ChangesOf(events[..|events| - 1]) +
      match events[|events| - 1]
      case RowChange(change) => [change]
      case Expired(_) => []
  }

  function AsEvents(changes: seq<Change>): seq<Event> {
    if changes == [] then []
    else AsEvents(changes[..|changes| - 1]) + [RowChange(changes[|changes| - 1])]
  }

  lemma OneMoreChange(sets: Store, events: seq<Event>, change: Change)
    ensures After(sets, events + [RowChange(change)]) == ApplyChange(After(sets, events), change)
    ensures ChangesOf(events + [RowChange(change)]) == ChangesOf(events) + [change]
  {
    hide ApplyChange;
    assert (events + [RowChange(change)])[..|events|] == events;
  }

  /** A message with several rows is so many events. */
  lemma {:induction false} MessageIsEvents(sets: Store, events: seq<Event>, changes: seq<Change>)
    ensures After(sets, events + AsEvents(changes)) == ApplyChanges(After(sets, events), changes)
    ensures ChangesOf(events + AsEvents(changes)) == ChangesOf(events) + changes
  {
    hide After, ChangesOf, ApplyChange;
    if changes == [] {
      assert events + AsEvents(changes) == events;
      assert ChangesOf(events) + changes == ChangesOf(events);
    } else {
      var front, last := changes[..|changes| - 1], changes[|changes| - 1];
      MessageIsEvents(sets, events, front);
      OneMoreChange(sets, events + AsEvents(front), last);
      assert events + AsEvents(changes) == (events + AsEvents(front)) + [RowChange(last)];
      assert ChangesOf(events) + changes == (ChangesOf(events) + front) + [last];
    }
  }

  /** A set of the author, if it exists, shows the article as its row says. */
  ghost predicate ShownIn(sets: Store, sortType: int, id: int, a: Article) {
    ArticlesKey(a.author, sortType) in sets ==>
      var m := sets[ArticlesKey(a.author, sortType)];
      match a.status
      case Visible => id in m && m[id] == ScoreOf(a, sortType)
      case UserDeleted => id !in m
      case _ => true
  }

  ghost predicate Settled(sets: Store, id: int, a: Article) {
    ShownIn(sets, SORT_PUBLISH_TIME, id, a) && ShownIn(sets, SORT_LIKE_COUNT, id, a)
  }

  /** Articles that are not reviewed, or have not passed, leave the lists as they are. */
  lemma OtherStatesChangeNothing(sets: Store, change: Change)
    requires change.1.status == Pending || change.1.status == NotPass
    ensures ApplyChange(sets, change) == sets
  {
  }

  /** A row change settles its article, whatever the sets held before. */
  lemma ChangeSettles(sets: Store, change: Change)
    requires change.1.status == Visible || change.1.status == UserDeleted
    ensures Settled(ApplyChange(sets, change), change.0, change.1)
  {
  }

  /** A change of another article leaves a settled one settled, even if its set disappears. */
  lemma OthersKeepSettled(sets: Store, change: Change, id: int, a: Article)
    requires Settled(sets, id, a) && change.0 != id
    ensures Settled(ApplyChange(sets, change), id, a)
  {
  }

  lemma {:induction false} LastChangeSettles(sets: Store, events: seq<Event>, id: int, a: Article)
    requires a.status == Visible || a.status == UserDeleted
    requires LastFor(ChangesOf(events), id) == Some(a) || (LastFor(ChangesOf(events), id) == None && Settled(sets, id, a))
    ensures Settled(After(sets, events), id, a)
  {
    if events != [] {
      var front, last := events[..|events| - 1], events[|events| - 1];
      if last.RowChange? {
        LastForAppend(ChangesOf(front), last.change, id);
        if last.change.0 == id {
          ChangeSettles(After(sets, front), last.change);
        } else {
          LastChangeSettles(sets, front, id, a);
          OthersKeepSettled(After(sets, front), last.change, id, a);
        }
      } else {
        assert ChangesOf(events) == ChangesOf(front);
        LastChangeSettles(sets, front, id, a);
      }
    }
  }

  /**
   Repair: from any sets at all, once the last change of every article carries its current row,
   each set of an author is gone or holds every visible article of the author at its current
   publish time or like count and none of the deleted ones. Articles without a change must have
   been shown correctly before. The order across articles does not matter, nor when keys expire.
   */
  lemma RepairConverges(sets: Store, events: seq<Event>, table: map<int, Article>, author: int, sortType: int)
    requires sortType == 0 || sortType == 1
    requires forall id :: id in table ==> table[id].status == Visible || table[id].status == UserDeleted
    requires forall id :: id in table ==>
      LastFor(ChangesOf(events), id) == Some(table[id]) ||
      (LastFor(ChangesOf(events), id) == None && Settled(sets, id, table[id]))
    ensures var key := ArticlesKey(author, sortType);
      key in After(sets, events) ==> forall id :: id in table && table[id].author == author ==>
        if table[id].status == Visible then
          id in After(sets, events)[key] &&
          After(sets, events)[key][id] == if sortType == 0 then table[id].publishTime else table[id].likeNum
        else
          id !in After(sets, events)[key]
  {
    hide After, ChangesOf, LastFor;
    forall id | id in table
      ensures Settled(After(sets, events), id, table[id])
    {
      LastChangeSettles(sets, events, id, table[id]);
    }
  }
}
