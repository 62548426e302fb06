/**
 The way of a like from the message queue to the article page: like messages are consumed into
 like_record and like_count, changed count rows travel to the article table, and changed article
 rows travel to the cached lists. Each queue keeps its order; steps of all stages interleave freely
 with publishing, deleting, fills that stop anywhere and keys that expire.
 */
module LikeDrain {
  import opened Wrappers
  import opened Queues
  import opened SortedSets
  import opened RedisStore
  import opened ArticleSets
  import L = LikeRecords
  import LikeConfluence

  const ARTICLE_BIZ: string := "article"

  type Table = map<int, Article>

  datatype World = World(
    records: L.Records,
    counts: L.Counts,
    likes: seq<L.Msg>,
    countChanges: seq<(L.Obj, int)>,
    articles: Table,
    articleChanges: seq<Change>,
    sets: Store)

  datatype Step =
    | Push(msg: L.Msg)
    | ConsumeLike
    | ConsumeCount
    | ConsumeArticle
    | Publish(id: int, author: int, publishTime: int, score: int)
    | Delete(id: int)
    | Fill(author: int, sortType: int, ids: seq<int>, sentinel: bool)
    | Expire(key: Key)

  function ObjOf(id: int): L.Obj {
    L.Obj(ARTICLE_BIZ, id)
  }

  /** A new article has a new id; a fill reads visible articles of its author. */
  ghost predicate Enabled(w: World, step: Step) {
    match step
    case ConsumeLike => w.likes != []
    case ConsumeCount => w.countChanges != []
    case ConsumeArticle => w.articleChanges != []
    case Publish(id, author, publishTime, score) => id > 0 && id !in w.articles
    case Delete(id) => id in w.articles
    case Fill(author, sortType, ids, sentinel) =>
      forall i :: 0 <= i < |ids| ==>
        ids[i] in w.articles && w.articles[ids[i]].author == author && w.articles[ids[i]].status == Visible
    case _ => true
  }

  /**
   Nothing stops a like of an id before its article exists. The article is published in time unless
   likes for it have been counted and no change of that count is still on its way.
   */
  ghost predicate InTime(w: World, step: Step) {
    step.Publish? ==>
      var o := ObjOf(step.id);
      o !in w.counts || w.counts[o].like == 0 || LastFor(w.countChanges, o).Some?
  }

  /** The tables after one consumed message, as the consumer leaves them. */
  function Counted(r: L.Records, c: L.Counts, m: L.Msg): L.Counts {
    if L.Valid(m) && (m.key !in r || r[m.key] != m.likeType)
    then c[m.key.on := L.Clamped(L.CountOf(c, m.key.on), L.RecordDelta(r, m))]
    else c
  }

  /** UPDATE article SET like_num = ? WHERE id = ?, for rows of the article business. */
  function UpdateLikeNum(articles: Table, o: L.Obj, likeNum: int): Table {
    if o.biz == ARTICLE_BIZ && o.id in articles
    then articles[o.id := articles[o.id].(likeNum := likeNum)]
    else articles
  }

  /** A changed row goes to the queue; an unchanged one does not. */
  function Changed(before: Table, after: Table, id: int, queue: seq<Change>): seq<Change> {
    if id in after && (id !in before || before[id] != after[id]) then queue + [(id, after[id])] else queue
  }

  ghost function FillIds(sets: Store, articles: Table, author: int, sortType: int, ids: seq<int>): Store
    requires forall i :: 0 <= i < |ids| ==> ids[i] in articles
    decreases |ids|
  {
    if ids == [] then sets
    else
      var score := ScoreOf(articles[ids[0]], sortType);
      var next := Added(sets, ArticlesKey(author, sortType), if score < 0 then 0 else score, ids[0]);
      FillIds(next, articles, author, sortType, ids[1..])
  }

  ghost function Next(w: World, step: Step): World
    requires Enabled(w, step)
  {
    match step
    case Push(m) => w.(likes := w.likes + [m])
    case ConsumeLike =>
      var m := w.likes[0];
      var counts := Counted(w.records, w.counts, m);
      w.(likes := w.likes[1..], records := L.After(w.records, m), counts := counts,
         countChanges :=
           if counts == w.counts then w.countChanges
           else w.countChanges + [(m.key.on, L.CountOf(counts, m.key.on).like)])
    case ConsumeCount =>
      var (o, likeNum) := w.countChanges[0];
      var articles := UpdateLikeNum(w.articles, o, likeNum);
      w.(countChanges := w.countChanges[1..], articles := articles,
         articleChanges := Changed(w.articles, articles, o.id, w.articleChanges))
    case ConsumeArticle =>
      w.(articleChanges := w.articleChanges[1..], sets := ApplyChange(w.sets, w.articleChanges[0]))
    case Publish(id, author, publishTime, score) =>
      var articles := w.articles[id := Article(author, Visible, 0, publishTime)];
      w.(articles := articles, articleChanges := Changed(w.articles, articles, id, w.articleChanges),
         sets := AddToBoth(w.sets, author, score, 0, id))
    case Delete(id) =>
      var a := w.articles[id];
      var articles := w.articles[id := a.(status := UserDeleted)];
      w.(articles := articles, articleChanges := Changed(w.articles, articles, id, w.articleChanges),
         sets := RemoveFromBoth(w.sets, a.author, id))
    case Fill(author, sortType, ids, sentinel) =>
      var filled := FillIds(w.sets, w.articles, author, sortType, ids);
      w.(sets := if sentinel then Added(filled, ArticlesKey(author, sortType), 0, SENTINEL) else filled)
    case Expire(key) => w.(sets := w.sets - {key})
  }

  /**
   The late articles: published too late, and without a change of their count since. The next
   consumed message that changes the count row makes an article current again.
   */
  ghost function LateAfter(w: World, late: set<int>, step: Step): set<int>
    requires Enabled(w, step)
  {
    match step
    case Publish(id, _, _, _) => if InTime(w, step) then late else late + {id}
    case ConsumeLike =>
      var m := w.likes[0];
      if Counted(w.records, w.counts, m) != w.counts && m.key.on.biz == ARTICLE_BIZ then late - {m.key.on.id} else late
    case _ => late
  }

  // ---- What every reachable world keeps ----

  /** The article's like_num is on its way: the last pending count change, or else the row, is current. */
  ghost predicate CountArrives(w: World, id: int)
    requires id in w.articles
  {
    var o := ObjOf(id);
    if o in w.counts then
      var pending := LastFor(w.countChanges, o);
      (if pending.Some? then pending.value else w.articles[id].likeNum) == w.counts[o].like
    else
      LastFor(w.countChanges, o) == None
  }

  /** The article has missed the counted likes and no change of the count is coming. */
  ghost predicate Overlooked(w: World, id: int)
    requires id in w.articles
  {
    var o := ObjOf(id);
    o in w.counts && w.counts[o].like > 0 && LastFor(w.countChanges, o) == None && w.articles[id].likeNum == 0
  }

  ghost predicate NumberArrives(w: World, late: set<int>, id: int)
    requires id in w.articles
  {
    if id in late then Overlooked(w, id) else CountArrives(w, id)
  }

  /**
   If the article is in the list of its author, it is visible and listed with its row's number. A
   fill writes 0 for a number below zero where a row change writes the number itself.
   */
  ghost predicate AgreesIn(sets: Store, sortType: int, id: int, a: Article) {
    var key := ArticlesKey(a.author, sortType);
    key in sets && id in sets[key] ==>
      a.status == Visible && (ScoreOf(a, sortType) >= 0 ==> sets[key][id] == ScoreOf(a, sortType))
  }

  ghost predicate Agrees(sets: Store, id: int, a: Article) {
    AgreesIn(sets, SORT_PUBLISH_TIME, id, a) && AgreesIn(sets, SORT_LIKE_COUNT, id, a)
  }

  /** The article's row is on its way to the list: the last pending row is current, or the list agrees. */
  ghost predicate RowArrives(w: World, id: int)
    requires id in w.articles
  {
    var pending := LastFor(w.articleChanges, id);
    if pending.Some? then pending.value == w.articles[id] else Agrees(w.sets, id, w.articles[id])
  }

  /** The last change on its way carries the current count. */
  ghost predicate PendingIsCurrent(w: World) {
    forall o :: LastFor(w.countChanges, o).Some? ==>
      o in w.counts && LastFor(w.countChanges, o).value == w.counts[o].like
  }

  ghost predicate Inv(w: World, late: set<int>) {
    && late <= w.articles.Keys
    && L.Consistent(w.records, w.counts)
    && PendingIsCurrent(w)
    && (forall i :: 0 <= i < |w.countChanges| ==> w.countChanges[i].0 in w.counts && w.countChanges[i].1 >= 0)
    && (forall i :: 0 <= i < |w.articleChanges| ==> w.articleChanges[i].0 in w.articles)
    && (forall id :: id in w.articles ==> id > 0 && w.articles[id].likeNum >= 0)
    && (forall id :: id in w.articles ==> w.articles[id].status == Visible || w.articles[id].status == UserDeleted)
    && (forall id :: id in w.articles ==> NumberArrives(w, late, id) && RowArrives(w, id))
  }

  const EMPTY: World := World(map[], map[], [], [], map[], [], map[])

  lemma HeadGone<K, V>(changes: seq<(K, V)>, k: K)
    requires changes != []
    ensures LastFor(changes, k) ==
      if LastFor(changes[1..], k).Some? then LastFor(changes[1..], k)
      else if changes[0].0 == k then Some(changes[0].1)
      else None
  {
  }

  lemma {:induction false} NoneOf<K, V>(changes: seq<(K, V)>, k: K)
    requires forall i :: 0 <= i < |changes| ==> changes[i].0 != k
    ensures LastFor(changes, k) == None
  {
    if changes != [] {
      NoneOf(changes[1..], k);
    }
  }

  lemma ConsumeLikeKeepsInv(w: World, late: set<int>)
    requires Inv(w, late) && w.likes != []
    ensures Inv(Next(w, ConsumeLike), LateAfter(w, late, ConsumeLike))
  {
    hide L.Consistent, L.RecordDelta, L.Clamped, Counted, Agrees;
    var m := w.likes[0];
    var w', late' := Next(w, ConsumeLike), LateAfter(w, late, ConsumeLike);
    TablesStayConsistent(w.records, w.counts, m);
    if w'.counts != w.counts {
      forall o
        ensures LastFor(w'.countChanges, o).Some? ==>
          o in w'.counts && LastFor(w'.countChanges, o).value == w'.counts[o].like
      {
        LastForAppend(w.countChanges, w'.countChanges[|w.countChanges|], o);
      }
      forall id | id in w.articles
        ensures NumberArrives(w', late', id) && RowArrives(w', id)
      {
        assert NumberArrives(w, late, id) && RowArrives(w, id);
        LastForAppend(w.countChanges, w'.countChanges[|w.countChanges|], ObjOf(id));
      }
    } else {
      assert forall id :: id in w.articles ==> NumberArrives(w, late, id) && RowArrives(w, id);
    }
  }

  lemma TablesStayConsistent(r: L.Records, c: L.Counts, m: L.Msg)
    requires L.Consistent(r, c)
    ensures L.Consistent(L.After(r, m), Counted(r, c, m))
    ensures Counted(r, c, m) != c ==>
      && Counted(r, c, m) == c[m.key.on := Counted(r, c, m)[m.key.on]]
      && Counted(r, c, m)[m.key.on].like >= 0
  {
    hide L.Consistent, L.RecordDelta;
    if L.Valid(m) {
      if m.key in r && r[m.key] == m.likeType {
        assert L.After(r, m) == r;
      } else {
        L.WriteBoth(r, c, m);
      }
    }
  }

  /** The step is the consumer's: records replayed and tables matching leave no other counts. */
  lemma CountedIsTheConsumer(r: L.Records, c: L.Counts, m: L.Msg, after: L.Counts)
    requires L.Consistent(r, c) && L.Consistent(L.After(r, m), after)
    ensures after == Counted(r, c, m)
  {
    TablesStayConsistent(r, c, m);
    LikeConfluence.CountsAreDetermined(L.After(r, m), after, Counted(r, c, m));
  }

  lemma ConsumeCountKeepsInv(w: World, late: set<int>)
    requires Inv(w, late) && w.countChanges != []
    ensures Inv(Next(w, ConsumeCount), LateAfter(w, late, ConsumeCount))
  {
    hide L.Consistent;
    var (o, likeNum) := w.countChanges[0];
    var w', late' := Next(w, ConsumeCount), LateAfter(w, late, ConsumeCount);
    forall p
      ensures LastFor(w'.countChanges, p).Some? ==>
        p in w'.counts && LastFor(w'.countChanges, p).value == w'.counts[p].like
    {
      HeadGone(w.countChanges, p);
    }
    forall id | id in w'.articles
      ensures NumberArrives(w', late', id) && RowArrives(w', id)
    {
      assert NumberArrives(w, late, id) && RowArrives(w, id);
      HeadGone(w.countChanges, ObjOf(id));
      if |w'.articleChanges| > |w.articleChanges| {
        LastForAppend(w.articleChanges, (o.id, w'.articles[o.id]), id);
      }
    }
  }

  lemma ChangeAgrees(sets: Store, change: Change)
    requires change.1.status == Visible || change.1.status == UserDeleted
    ensures Agrees(ApplyChange(sets, change), change.0, change.1)
  {
  }

  lemma OthersKeepAgreeing(sets: Store, change: Change, id: int, a: Article)
    requires Agrees(sets, id, a) && change.0 != id
    ensures Agrees(ApplyChange(sets, change), id, a)
  {
  }

  lemma ConsumeArticleKeepsInv(w: World, late: set<int>)
    requires Inv(w, late) && w.articleChanges != []
    ensures Inv(Next(w, ConsumeArticle), LateAfter(w, late, ConsumeArticle))
  {
    hide L.Consistent, Agrees, ApplyChange;
    var change := w.articleChanges[0];
    var w', late' := Next(w, ConsumeArticle), LateAfter(w, late, ConsumeArticle);
    forall id | id in w'.articles
      ensures NumberArrives(w', late', id) && RowArrives(w', id)
    {
      assert NumberArrives(w, late, id) && RowArrives(w, id);
      HeadGone(w.articleChanges, id);
      if change.0 == id {
        if LastFor(w'.articleChanges, id).None? {
          ChangeAgrees(w.sets, change);
        }
      } else if LastFor(w'.articleChanges, id).None? {
        OthersKeepAgreeing(w.sets, change, id, w.articles[id]);
      }
    }
  }

  /** Publishing keeps the like numbers on their way exactly when it is in time. */
  lemma PublishKeepsInvIff(w: World, late: set<int>, step: Step)
    requires Inv(w, late) && Enabled(w, step) && step.Publish?
    ensures Inv(Next(w, step), late) <==> InTime(w, step)
    ensures Inv(Next(w, step), LateAfter(w, late, step))
  {
    hide L.Consistent, Agrees, AddToBoth;
    var w', late' := Next(w, step), LateAfter(w, late, step);
    var row := w'.articles[step.id];
    assert row == Article(step.author, Visible, 0, step.publishTime);
    CountIsNatural(w, late, ObjOf(step.id));
    assert CountArrives(w', step.id) <==> InTime(w, step);
    assert Overlooked(w', step.id) <==> !InTime(w, step);
    forall id | id in w'.articles
      ensures RowArrives(w', id) && (id != step.id ==> NumberArrives(w', late, id) && NumberArrives(w', late', id))
    {
      LastForAppend(w.articleChanges, (step.id, row), id);
      if id != step.id {
        assert NumberArrives(w, late, id) && RowArrives(w, id);
        if LastFor(w.articleChanges, id).None? {
          OthersKeepAgreeing(w.sets, (step.id, row.(publishTime := step.score)), id, w.articles[id]);
        }
      }
    }
  }

  lemma CountIsNatural(w: World, late: set<int>, o: L.Obj)
    requires Inv(w, late)
    ensures if o in w.counts then w.counts[o].like >= 0 else LastFor(w.countChanges, o) == None
    ensures LastFor(w.countChanges, o).Some? ==> LastFor(w.countChanges, o).value == w.counts[o].like
  {
  }

  /**
   Too late: a like is counted and passed on before its article exists. With all queues empty the
   article is left with no like while one record says thumbs up.
   */
  lemma EarlyLikeIsLost(author: int, user: int)
    requires user > 0
    ensures var w1 := Next(EMPTY, Push(L.Msg(L.Key(ObjOf(1), user), L.THUMB_UP)));
      Enabled(w1, ConsumeLike) && var w2 := Next(w1, ConsumeLike);
      Enabled(w2, ConsumeCount) && var w3 := Next(w2, ConsumeCount);
      Enabled(w3, Publish(1, author, 1, 1)) && var w4 := Next(w3, Publish(1, author, 1, 1));
      Enabled(w4, ConsumeArticle) && var w5 := Next(w4, ConsumeArticle);
      && w5.likes == [] && w5.countChanges == [] && w5.articleChanges == []
      && 1 in w5.articles && w5.articles[1].likeNum == 0
      && |L.Rows(w5.records, ObjOf(1), L.THUMB_UP)| == 1
  {
    var m := L.Msg(L.Key(ObjOf(1), user), L.THUMB_UP);
    assert ARTICLE_BIZ[0] == 'a' && L.Valid(m);
    hide L.Valid, ApplyChange, AddToBoth, L.IsSpace;
    var w1 := Next(EMPTY, Push(m));
    assert w1.likes == [m] && w1.likes[1..] == [];
    var w2 := Next(w1, ConsumeLike);
    assert w2.countChanges == [(ObjOf(1), 1)];
    assert w2.records == map[m.key := L.THUMB_UP];
    assert L.Rows(w2.records, ObjOf(1), L.THUMB_UP) == {m.key};
    var w3 := Next(w2, ConsumeCount);
    assert w3.articles == map[] && w3.countChanges == [];
    var w4 := Next(w3, Publish(1, author, 1, 1));
    assert w4.articleChanges == [(1, Article(author, Visible, 0, 1))];
  }

  lemma DeleteKeepsInv(w: World, late: set<int>, step: Step)
    requires Inv(w, late) && Enabled(w, step) && step.Delete?
    ensures Inv(Next(w, step), LateAfter(w, late, step))
  {
    hide L.Consistent, Agrees, RemoveFromBoth;
    var w', late' := Next(w, step), LateAfter(w, late, step);
    var row := w'.articles[step.id];
    ChangeAgrees(w.sets, (step.id, row));
    forall id | id in w'.articles
      ensures NumberArrives(w', late', id) && RowArrives(w', id)
    {
      assert NumberArrives(w, late, id) && RowArrives(w, id);
      LastForAppend(w.articleChanges, (step.id, row), id);
      if id != step.id && LastFor(w.articleChanges, id).None? {
        OthersKeepAgreeing(w.sets, (step.id, row), id, w.articles[id]);
      }
    }
  }

  lemma AddKeepsAgreeing(sets: Store, key: Key, score: int, member: int, id: int, a: Article)
    requires Agrees(sets, id, a)
    requires key.ArticlesKey? && member == id && key.author == a.author && IsSortType(key.sortType) ==>
      a.status == Visible && (ScoreOf(a, key.sortType) >= 0 ==> score == ScoreOf(a, key.sortType))
    ensures Agrees(Added(sets, key, score, member), id, a)
  {
  }

  lemma {:induction false} FillKeepsAgreeing(sets: Store, articles: Table, author: int, sortType: int, ids: seq<int>,
                                             id: int)
    requires id in articles && Agrees(sets, id, articles[id])
    requires forall i :: 0 <= i < |ids| ==> ids[i] in articles && articles[ids[i]].status == Visible
    ensures Agrees(FillIds(sets, articles, author, sortType, ids), id, articles[id])
    decreases |ids|
  {
    hide Agrees;
    if ids != [] {
      var score := ScoreOf(articles[ids[0]], sortType);
      var written := if score < 0 then 0 else score;
      AddKeepsAgreeing(sets, ArticlesKey(author, sortType), written, ids[0], id, articles[id]);
      FillKeepsAgreeing(Added(sets, ArticlesKey(author, sortType), written, ids[0]), articles, author, sortType,
                        ids[1..], id);
    }
  }

  lemma FillKeepsInv(w: World, late: set<int>, step: Step)
    requires Inv(w, late) && Enabled(w, step) && step.Fill?
    ensures Inv(Next(w, step), LateAfter(w, late, step))
  {
    hide L.Consistent, Agrees, FillIds;
    var Fill(author, sortType, ids, sentinel) := step;
    var w', late' := Next(w, step), LateAfter(w, late, step);
    forall id | id in w'.articles
      ensures NumberArrives(w', late', id) && RowArrives(w', id)
    {
      assert NumberArrives(w, late, id) && RowArrives(w, id);
      if LastFor(w.articleChanges, id).None? {
        FillKeepsAgreeing(w.sets, w.articles, author, sortType, ids, id);
        AddKeepsAgreeing(FillIds(w.sets, w.articles, author, sortType, ids),
                         ArticlesKey(author, sortType), 0, SENTINEL, id, w.articles[id]);
      }
    }
  }

  lemma OtherStepsKeepInv(w: World, late: set<int>, step: Step)
    requires Inv(w, late) && Enabled(w, step) && (step.Push? || step.Expire?)
    ensures Inv(Next(w, step), LateAfter(w, late, step))
  {
    hide L.Consistent;
    var w', late' := Next(w, step), LateAfter(w, late, step);
    forall id | id in w'.articles
      ensures NumberArrives(w', late', id) && RowArrives(w', id)
    {
      assert NumberArrives(w, late, id) && RowArrives(w, id);
    }
  }

  lemma StepKeepsInv(w: World, late: set<int>, step: Step)
    requires Inv(w, late) && Enabled(w, step)
    ensures Inv(Next(w, step), LateAfter(w, late, step))
  {
    hide Inv, Next, LateAfter;
    match step
    case ConsumeLike => ConsumeLikeKeepsInv(w, late);
    case ConsumeCount => ConsumeCountKeepsInv(w, late);
    case ConsumeArticle => ConsumeArticleKeepsInv(w, late);
    case Publish(_, _, _, _) => PublishKeepsInvIff(w, late, step);
    case Delete(_) => DeleteKeepsInv(w, late, step);
    case Fill(_, _, _, _) => FillKeepsInv(w, late, step);
    case _ => OtherStepsKeepInv(w, late, step);
  }

  /** Any interleaving of enabled steps. */
  ghost predicate Possible(w: World, steps: seq<Step>)
    decreases |steps|
  {
    steps == [] || (Enabled(w, steps[0]) && Possible(Next(w, steps[0]), steps[1..]))
  }

  ghost function Run(w: World, steps: seq<Step>): World
    requires Possible(w, steps)
    decreases |steps|
  {
    if steps == [] then w else Run(Next(w, steps[0]), steps[1..])
  }

  /** The articles that are late after a run. */
  ghost function LateIds(w: World, late: set<int>, steps: seq<Step>): set<int>
    requires Possible(w, steps)
    decreases |steps|
  {
    if steps == [] then late else LateIds(Next(w, steps[0]), LateAfter(w, late, steps[0]), steps[1..])
  }

  lemma {:induction false} RunKeepsInv(w: World, late: set<int>, steps: seq<Step>)
    requires Inv(w, late) && Possible(w, steps)
    ensures Inv(Run(w, steps), LateIds(w, late, steps))
    decreases |steps|
  {
    hide Inv, Next, Enabled, LateAfter;
    if steps != [] {
      StepKeepsInv(w, late, steps[0]);
      RunKeepsInv(Next(w, steps[0]), LateAfter(w, late, steps[0]), steps[1..]);
    }
  }

  /** The author's list, if it has the article, has it with this score, and the article is visible. */
  ghost predicate ListedRight(w: World, sortType: int, id: int, score: int)
    requires id in w.articles
  {
    var key := ArticlesKey(w.articles[id].author, sortType);
    key in w.sets && id in w.sets[key] ==> w.articles[id].status == Visible && w.sets[key][id] == score
  }

  /**
   After any run that has passed on every count change, the like_num of an article with a count row
   is the number of its thumbs-up records exactly when the article is not late. And once the changed
   rows have arrived, a list that still has an article shows it only if it is visible, the list by
   like count with its like_num and the list by publish time with its publish time.
   */
  lemma DrainedIsExactIff(steps: seq<Step>)
    requires Possible(EMPTY, steps)
    ensures var w, late := Run(EMPTY, steps), LateIds(EMPTY, {}, steps);
      && (w.countChanges == [] ==> forall id :: id in w.articles && ObjOf(id) in w.counts ==>
            (w.articles[id].likeNum == |L.Rows(w.records, L.Obj("article", id), 0)| <==> id !in late))
      && (w.articleChanges == [] ==> forall id :: id in w.articles ==>
            && ListedRight(w, 1, id, w.articles[id].likeNum)
            && (w.articles[id].publishTime >= 0 ==> ListedRight(w, 0, id, w.articles[id].publishTime)))
  {
    hide Run, Possible, Next, LateIds;
    RunKeepsInv(EMPTY, {}, steps);
    var w, late := Run(EMPTY, steps), LateIds(EMPTY, {}, steps);
    forall id | id in w.articles
      ensures ObjOf(id) in w.counts ==> w.counts[ObjOf(id)] == L.Tally(w.records, ObjOf(id))
      ensures NumberArrives(w, late, id) && RowArrives(w, id)
    {
    }
  }

  // ---- A message of several count changes ----

  function UpdateAll(articles: Table, changes: seq<(L.Obj, int)>): Table {
    if changes == [] then articles
    else
      var (o, likeNum) := changes[|changes| - 1];
      UpdateLikeNum(UpdateAll(articles, changes[..|changes| - 1]), o, likeNum)
  }

  /** The world after its first n count changes have been passed on, one step after the other. */
  ghost function ConsumeCounts(w: World, n: nat): (w': World)
    requires n <= |w.countChanges|
    ensures w'.countChanges == w.countChanges[n..]
  {
    if n == 0 then w else Next(ConsumeCounts(w, n - 1), ConsumeCount)
  }

  /** So many steps update the table as the changes say, one after the other. */
  lemma {:induction false} CountStepsUpdateAll(w: World, n: nat)
    requires n <= |w.countChanges|
    ensures ConsumeCounts(w, n).articles == UpdateAll(w.articles, w.countChanges[..n])
  {
    if n > 0 {
      CountStepsUpdateAll(w, n - 1);
      assert w.countChanges[..n][..n - 1] == w.countChanges[..n - 1];
    }
  }
}
