# Verification of the Go-Zero content community: likes, follows, article lists, error codes

A Dafny model of the four parts of the repository in which something redundant must agree with a
simple truth, and proofs that it does.

* **Likes.** `Thumbup` reserves an idempotency key, answers with an optimistic count and pushes a
  message; the consumer writes `like_record` and `like_count` in one transaction. The truth is the
  last valid message of each key; the counts must be the numbers of records.
  `LikeRecords` says what a log means, `LikeConsumer` is the transaction with its lookup-then-insert
  windows and failing statements, `LikeConfluence` the order laws, `OptimisticCount` the answer,
  `Reservation` the key as a machine of interleaved requests, `LikeRpc` the request itself,
  `ClampLaw` the counting with a floor at zero.
* **Follows.** `Follow` and `UnFollow` move an edge and two counters and patch two Redis sorted sets
  that carry a `-1` member when they are complete. `FollowGraph` has the state, the steps and what
  every run keeps, `FollowService` the requests, `FansPaging` a client that pages through a cached
  list, `ColdPaging` one that starts before the list is there, `FollowClient` that client itself.
* **Articles.** `ArticleSets` is the repair of an author's two sorted sets by row changes,
  `SearchIndex` the bulk of documents that goes with it, `LikeDrain` the whole way from a like message
  to the cached like count, `ArticlePage` and `ArticleService` the page and the requests,
  `ArticlePaging` a client that pages through a list, `ArticleTies` and `ArticleOrders` what it sees
  when articles tie and their rows arrive in any order, `ArticleClient` that client itself.
* **Error codes.** `Xcode` sends a code through gRPC statuses, hop after hop.

`SortedSets`, `RedisStore`, `Decimal`, `Queues` and `Wrappers` are the ground: listings in ZREVRANGE
order, a Redis whose methods are proved against maps from member to score, decimal text, queues of
changes, optional values and results.

Requests and consumers that change tables or Redis are methods of classes. Their `ensures` equate
the new state with a function of the old one, or with the truth itself (the consumer's counts are
never described, only that they match the records), and the lemmas are about those functions.

## Assumptions

* Transactions are atomic; the like consumer is the exception, where complete transactions of others
  commit inside its two windows, with windows of their own. A lookup after a duplicate entry sees
  the committed row.
* Follow requests are served one at a time. A cache fill reads the table and writes the list without
  anybody in between, but may stop after any number of ZADDs.
* Redis, Kafka and MySQL calls succeed, except in `LikeConsumer`, `Reservation` and `LikeRpc`, where
  each may fail, and in `ArticleService.Service.ArticleOperate`, where the user service may not know
  an author. In `Reservation` and `LikeRpc` the script and the push may also have their effect while
  the reply is lost; the other calls there only read, or are ones whose reply is not looked at. In
  `LikeConsumer` a failing statement has no effect.
* Times come from outside and are positive. User ids of stored follow rows are positive because the
  columns are unsigned (db/follow.sql); a negative id is a database error.
* Members of a sorted set are ids; their text is the decimal text of the id, which tells ids apart
  (`Decimal.FormatInjective`) and is read back (`Decimal.ParseFormat`). Byte order is taken on it.
* The bulk indexer may send the documents of one message in any order; messages go one after another.
* Key names such as `biz#user#fans#7` are constructors of a datatype. Numbers are unbounded; the
  32-bit conversion of error codes and the 64-bit range of parsed numbers are modelled.
* Texts are sequences of Unicode characters.

## Where the code differs from what one might expect

* `applyCountDelta` ends without a return statement (application/like/mq/internal/logic/thumbuplogic.go:182);
  the model returns the error of the update.
* Comments speak of like types 1 and 2; the constants are 0 and 1, and so is the model.
* `FansList` answers a list that holds only the sentinel with `IsEnd` false, so a client never stops
  (`FansPaging.EmptyListNeverEnds`); `FollowList` answers true there. Paging also stalls when a page
  size or more fans share a follow time, and never ends on a list without the sentinel: 1000 fans or
  more, a fill that was cut off, a trimmed list. `FansPaging.PagingEndsIff` is the exact condition.
* The first response from a cold cache is ordered by id, the later ones by time, so a fan can be
  missed (`ColdPaging.ColdPagingLosesAFan`), and such paging stalls at a crowd as well
  (`ColdPaging.ColdPagingStalls`); `ColdPaging.ColdPagingIff` is the exact condition.
* `Thumbup` validates nothing, so its answer counts messages that the consumer drops
  (`OptimisticCount.AnswerIsExactIff`).
* A reservation is not given back when the short cut for an unchanged type fails to read the count
  (application/like/rpc/internal/logic/thumbuplogic.go:159-161; `LikeRpc.FailedRequestKeepsKey`); the
  last clause of `LikeRpc.Thumbups.Thumbup` says exactly when a failed request leaves the key behind.
* A request that does not see the answer of the script goes on without it, so a type can be pushed
  twice while its key is held (`Reservation.LostReplyPushesTwice`).
* The last request of a user does not always win: it can lose to its own old key
  (`LikeRpc.ThirdRequestIsLost`) and to a record that is behind (`LikeRpc.StaleRecordWins`).
  `LikeRpc.LastRequestWinsIff` says exactly when it wins.
* An error whose text is empty arrives as code 0, OK, and one whose text is a number as that number
  (`Xcode.OtherErrorsArrive`).
* A like of an id that has no article yet is lost if its count travels on before the article is published
  (`LikeDrain.EarlyLikeIsLost`), until the next like or dislike of the article is counted.
  `LikeDrain.DrainedIsExactIff` says of every run which articles are exact in the end.
* Two versions of an article in one message can leave the older one in the search index
  (`SearchIndex.BulkIgnoresOrderIff`).
* Articles that tie on the sort key come out in any order (`ArticlePage.SortingIsUniqueIff`), and a
  client can miss one of them (`ArticlePaging.TiedArticleIsSkipped`). `ArticleOrders.EveryOrderShowsAllIff`
  says for which lists every order of arrival shows every article once.
* Cursor 0 stands for no cursor, but it is also the cursor after an article without a like. A page
  that ends with one and is not the last sends the client back to the first page
  (`ArticlePaging.UnlikedNeverEnds`). A crowd of articles with one score stalls paging as it does for
  fans. `ArticleTies.EveryOrderEndsIff` is the exact condition.

## Model

| member | source | states |
|---|---|---|
| LikeConsumer.Tables.Consume | application/like/mq/internal/logic/thumbuplogic.go:48-149 | Afterwards every count row is the number of records of type 0 and of type 1 and exists iff a record does; the records are those of a log of committed messages; a message with id and user above 0, type 0 or 1 and a business that is not blank ends that log, every other one changes nothing and is no error; with others committing in both windows, and with exactly the executed statements able to fail, which leaves only the others' messages |
| LikeRecords.ValidMeans | application/like/mq/internal/logic/thumbuplogic.go:134-149 | Which messages are accepted, field by field |
| LikeRecords.CountsInNumbers | pkg/deltalike/deltalike.go:5-16 | Type 0 is a like and type 1 a dislike in every count row |
| LikeConsumer.Tables.FindOrInsertRecord | application/like/mq/internal/logic/thumbuplogic.go:72-114 | The type found, at first or after a duplicate entry, is the one committed; nobody is let in when the record was there |
| LikeConsumer.Tables.ApplyCountDelta | application/like/mq/internal/logic/thumbuplogic.go:151-184 | The row to write is the current count plus the delta, clamped, on all paths: found, inserted, duplicate entry |
| LikeConsumer.Tables.ConsumeAll | application/like/mq/internal/logic/thumbuplogic.go:48-132 | Counts match records after every run of the consumer |
| LikeRecords.TallyMoves | pkg/deltalike/deltalike.go:10-27 | The insert and switch deltas are exactly the change in the numbers of records |
| LikeRecords.ClampIsIdle | application/like/mq/internal/logic/thumbuplogic.go:179-180 | On matching tables the clamp at zero never changes a value, and the written count is the new number of records |
| LikeRecords.WriteBoth | application/like/mq/internal/logic/thumbuplogic.go:63-117 | Writing a record with its clamped count keeps the tables matching |
| LikeConfluence.LastWriteWins | application/like/mq/internal/logic/thumbuplogic.go:72-117 | A record holds the type of the last valid message for its key |
| LikeConfluence.Confluence | application/like/mq/internal/logic/thumbuplogic.go:72-117 | Two logs that agree within each key end in the same records and the same counts |
| LikeConfluence.RedeliveryIff | application/like/mq/internal/logic/thumbuplogic.go:68-78 | When a message delivered again changes anything, both directions |
| LikeConfluence.RedeliveryIsHarmless | application/like/mq/internal/logic/thumbuplogic.go:68-78 | Redelivery before the next message of the key changes nothing, whatever follows |
| OptimisticCount.AnswerIsBounded | application/like/rpc/internal/logic/thumbuplogic.go:163-232 | The answer differs from the counts just after the message was consumed by at most the number of pending messages of other users on the object |
| OptimisticCount.AnswerIsExactIff | application/like/rpc/internal/logic/thumbuplogic.go:158-232 | With nothing pending the answer to a pushed request is exact iff the consumer accepts the message |
| ClampLaw.Reflection | application/like/rpc/internal/logic/thumbuplogic.go:58-67 | A clamped count is the plain one plus the depth of its lowest dip below zero |
| ClampLaw.ClampIsExactIff | application/like/rpc/internal/logic/thumbuplogic.go:58-67 | The Go and the Lua clamp agree, never count too low, and count exactly iff no prefix goes negative |
| Reservation.OnePushPerPeriod | application/like/rpc/internal/logic/thumbuplogic.go:33-49 | While a key holds one type, a request of that type whose script call is answered pushes only if no other such request called the script before it in that time, so at most one of the answered ones pushes; under any interleaving, failure, lost reply and expiry |
| Reservation.DuplicateNeverPushes | application/like/rpc/internal/logic/thumbuplogic.go:107-112 | A request that is answered while its type holds the key never pushes, before or after |
| Reservation.LostReplyPushesTwice | application/like/rpc/internal/logic/thumbuplogic.go:107-112 | A run in which the second request misses the answer of the script and both push while the key is held |
| Reservation.OnePushPerRequest | application/like/rpc/internal/logic/thumbuplogic.go:196-205 | No request pushes twice, with or without the reply of its push |
| Reservation.FinishedMeansPushed | application/like/rpc/internal/logic/thumbuplogic.go:218-220 | A key is D:t only after a message of type t was pushed for it |
| LikeRpc.Thumbups.Thumbup | application/like/rpc/internal/logic/thumbuplogic.go:104-233 | Key and queue move as one request of that machine; exactly when the message is pushed, what becomes of the key in every case, and which failing calls make the request fail; the optimistic count answers a push and the plain count everything else |
| LikeRpc.AloneIs | application/like/rpc/internal/logic/thumbuplogic.go:104-233 | The steps of the machine, taken by one undisturbed request, add up to what the request does |
| LikeRpc.LastRequestWinsIff | application/like/rpc/internal/logic/thumbuplogic.go:107-205 | For any keys, records, pending messages and failing calls: the requested type stands after everything pending is consumed iff the message is valid and pushed, its type neither reserved nor recorded, or the messages before it say that type anyway |
| LikeRpc.StaleRecordWins | application/like/rpc/internal/logic/thumbuplogic.go:158-161 | Up recorded, down pending, up requested with no key held: down stands |
| LikeRpc.FailedRequestKeepsKey | application/like/rpc/internal/logic/thumbuplogic.go:158-161 | Type already recorded and the count not readable: the request fails, its key stays, and requests of that type are turned away until it expires |
| LikeRpc.ThirdRequestIsLost | application/like/rpc/internal/logic/thumbuplogic.go:33-49 | Up, down, up again ends as down |
| FollowGraph.ReachableStates | application/follow/rpc/internal/logic/followlistlogic.go:139-203 | In every reachable state counters are degrees and add up to the active edges, no self-edge exists, cached members are current neighbours, and a list with the sentinel has all of them |
| FollowGraph.EveryRunKeepsInv | application/follow/rpc/internal/logic/followlogic.go:53-115 | Every run of follows, unfollows, fills cut off anywhere and expiries keeps that invariant, from any state that has it |
| FollowGraph.CountsFollowEdge | application/follow/rpc/internal/logic/followlogic.go:53-77 | Both increments together keep the counters equal to the degrees |
| FollowGraph.CountsUnFollowEdge | application/follow/rpc/internal/logic/unfollowlogic.go:54-66 | Both decrements together keep the counters equal to the degrees |
| FollowGraph.GuardsPass | application/follow/rpc/internal/model/followcount.go:53-69 | The guards on the decrements never hold an update back |
| FollowGraph.TotalsAgree | application/follow/rpc/internal/logic/followlogic.go:53-77 | Over all users, follow counts and fans counts both add up to the number of active edges |
| FollowGraph.RepeatIsNoOp | application/follow/rpc/internal/logic/followlogic.go:44-51 | A repeated Follow or UnFollow changes nothing |
| FollowGraph.FollowMeans | application/follow/rpc/internal/logic/followlogic.go:44-115 | A follow between two users succeeds, makes exactly that edge active, keeps the time of a row that was there, and updates exactly the two lists |
| FollowGraph.UnFollowMeans | application/follow/rpc/internal/logic/unfollowlogic.go:40-79 | An unfollow succeeds, ends exactly that edge and touches exactly the two lists |
| FollowGraph.UnFollowUndoesFollow | application/follow/rpc/internal/logic/unfollowlogic.go:54-66 | UnFollow after Follow restores the active edges and every counter |
| FollowGraph.FollowTrimsToNewest | application/follow/rpc/internal/logic/followlogic.go:88-115 | An updated list keeps at most 1000 members, exactly the highest, and all of them while the sentinel survives |
| FollowGraph.SentinelGoesFirst | application/follow/rpc/internal/logic/followlogic.go:94-98 | Trimming takes the sentinel before any real member |
| FollowGraph.CutFillOk | application/follow/rpc/internal/logic/followlistlogic.go:184-204 | A fill that stops anywhere leaves the list sound, and complete if it carries the sentinel |
| FollowService.Service.Follow | application/follow/rpc/internal/logic/followlogic.go:34-119 | The request moves table, counters and lists as the follow step. Between two users it succeeds and the edge is active, also after an unfollow; the new neighbours enter existing lists at the readings of the clock, cut to the 1000 highest; which error comes for which ids, changing nothing |
| FollowService.Service.UnFollow | application/follow/rpc/internal/logic/unfollowlogic.go:32-82 | The request moves table, counters and lists as the unfollow step. For ids that are not 0 it succeeds, ends exactly that edge and takes both users off the other's list |
| FollowService.Service.FindByUserId | application/follow/rpc/internal/model/follow.go:70-79 | The newest active rows of a follower, by descending id |
| FollowService.Service.FindByFollowedUserId | application/follow/rpc/internal/model/follow.go:91-99 | The newest active rows of a followed user, by descending id |
| FollowService.Service.FillFollows | application/follow/rpc/internal/logic/followlistlogic.go:139-204 | The fill is a fill step of the graph; a complete one of an absent list leaves everybody followed in the rows found, at the time the row was made, and -1 at score 0 iff between 1 and 999 rows were found |
| FollowGraph.FollowFillWrites | application/follow/rpc/internal/logic/followlistlogic.go:184-204 | The same as a law of the fill step |
| FollowGraph.FansFillWrites | application/follow/rpc/internal/logic/fanslistlogic.go:174-195 | The same for the fans list |
| FollowGraph.ScoresAreFollowTimes | application/follow/rpc/internal/logic/followlogic.go:53-115 | In every reachable state each cached follow or fan stands at a clock reading of a follow of that edge: of its row or of an update of that list |
| FollowService.Service.FansList | application/follow/rpc/internal/logic/fanslistlogic.go:35-141 | The response is a page of the cached list, or the first page of the table with a fill; each fan is shown with its true degrees |
| FansPaging.NextPage | application/follow/rpc/internal/logic/fanslistlogic.go:96-109 | A later page starts with the boundary item, goes on in order, and ends the list or moves up a rank |
| FansPaging.AdjacentPages | application/follow/rpc/internal/logic/fanslistlogic.go:53-109 | Two pages in a row share exactly the boundary item, whose rank strictly increases |
| FansPaging.PagingListsEveryFan | application/follow/rpc/internal/logic/fanslistlogic.go:53-109 | Feeding (Cursor, Id) back lists every cached fan once and in order, then says IsEnd |
| FansPaging.PagingEndsIff | application/follow/rpc/internal/logic/fanslistlogic.go:53-109 | Paging through any cached list ever ends iff the list carries the sentinel, has a fan, and no page size of fans share a time |
| FansPaging.EveryRequestIsCached | application/follow/rpc/internal/logic/fanslistlogic.go:143-172 | While a list stays, every request of a client that feeds (Cursor, Id) back finds an answer in it, so the table is not asked again |
| FollowClient.ReadOn | application/follow/rpc/internal/logic/fanslistlogic.go:35-141 | A client that calls FansList until IsEnd gets the pages these lemmas speak of, the repeated fans dropped, and changes nothing |
| FollowClient.ReadCachedFans | application/follow/rpc/internal/logic/fanslistlogic.go:35-141 | With a list that has the sentinel and a fan, no page size of fans sharing a time and a clock not before any follow, the client stops with exactly the fans, as many as the counter says |
| FollowClient.ReadUncachedFans | application/follow/rpc/internal/logic/fanslistlogic.go:35-141 | The same without a list, for 1 to 999 fans whose follow times grow with the row ids, pages of two or more and a fill that completes |
| FansPaging.UncrowdedMeans | application/follow/rpc/internal/logic/fanslistlogic.go:155-155 | That condition counts the fans of each follow time |
| FansPaging.PagingShowsTheFans | application/follow/rpc/internal/logic/fanslistlogic.go:53-109 | In every reachable state, for a cached list with the sentinel and at least one fan, no page size of fans sharing a time, and a clock not before any follow: the pages together are the current fans, as many as the fans counter says |
| ColdPaging.ColdPagingIff | application/follow/rpc/internal/logic/fanslistlogic.go:73-141 | From a cold cache, paging lists every fan once and then ends iff all fans fit one page, or no page size of fans share a time and the newest by id and by time agree on the first page and its last fan |
| ColdPaging.ColdPagingShowsTheFansIff | application/follow/rpc/internal/logic/fanslistlogic.go:73-192 | The same in every reachable state with the list gone, between 1 and 999 fans and a complete fill: the pages are the fans of the graph, as many as the counter says, and end, iff that holds |
| ColdPaging.ColdPagingShowsTheFans | application/follow/rpc/internal/logic/fanslistlogic.go:73-192 | With follow times that grow with the row ids and pages of two or more it always holds |
| ColdPaging.ColdPagingLosesAFan | application/follow/rpc/internal/logic/fanslistlogic.go:73-109 | Two fans of the same second at the end of the first page: one is never shown |
| ColdPaging.ColdPagingStalls | application/follow/rpc/internal/logic/fanslistlogic.go:73-109 | Three fans of the same second in pages of two: the first pages agree, and no response ever says IsEnd |
| FansPaging.EmptyListNeverEnds | application/follow/rpc/internal/logic/fanslistlogic.go:56-62 | A list with only the sentinel never says IsEnd |
| RedisStore.Redis.Zadd | application/follow/rpc/internal/logic/followlogic.go:89-89 | On the listing, ZADD sets one score, keeps the order and touches no other set |
| RedisStore.Redis.ZrevRangeByScore | application/follow/rpc/internal/logic/fanslistlogic.go:155-155 | The entries with scores from 0 to the cursor, the highest first and at most as many as asked for |
| RedisStore.Redis.Zrem | application/follow/rpc/internal/logic/unfollowlogic.go:70-75 | On the listing, ZREM takes out one member; a set that becomes empty is gone |
| RedisStore.Redis.ZremRangeByRank | application/follow/rpc/internal/logic/followlogic.go:95-95 | From rank 0 to -(n+1), exactly the n highest entries stay |
| SortedSets.TopIsHighest | application/follow/rpc/internal/logic/followlogic.go:95-95 | The kept entries are as many as allowed and precede every dropped one |
| ArticleSets.RepairConverges | application/article/mq/internal/logic/articlelogic.go:55-96 | Once the last change of each article carries its row, each set is gone or shows every visible article at its score and no deleted one, in any order and with keys expiring |
| ArticleSets.LastChangeSettles | application/article/mq/internal/logic/articlelogic.go:66-96 | The same for one article, from any sets at all |
| ArticleSets.OtherStatesChangeNothing | application/article/mq/internal/logic/articlelogic.go:66-96 | Row changes to the states pending and not-passed leave the lists as they are |
| ArticleSets.MessageIsEvents | application/article/mq/internal/logic/articlelogic.go:55-96 | A message of several rows repairs as that many single changes |
| LikeDrain.DrainedIsExactIff | application/article/mq/internal/logic/articlelikenumlogic.go:41-64 | For every run from empty tables, once the count changes are drained, like_num of an article with a count row is the number of thumbs-up records iff the article was not published after a counted like was passed on with no later change of its count row; once the row changes are drained, a surviving list shows only visible articles, by like count with their like_num and by publish time with their publish time |
| LikeDrain.PublishKeepsInvIff | application/article/rpc/internal/logic/publishlogic.go:41-87 | Publishing adds no overlooked article iff the id has no counted like whose change was already passed on |
| LikeDrain.EarlyLikeIsLost | application/article/mq/internal/model/articlemodel.go:32-36 | A like that is passed on before its article exists leaves the article at zero |
| LikeDrain.RunKeepsInv | application/article/mq/internal/logic/articlelikenumlogic.go:41-64 | In every reachable world the current number is in its row or last in its queue, at both stages, except for exactly the overlooked articles, which stay at zero with a like counted and nothing on its way |
| LikeDrain.CountedIsTheConsumer | application/like/mq/internal/logic/thumbuplogic.go:48-132 | The count rows of the drain are the only ones the consumer can leave |
| ArticleService.Service.Publish | application/article/rpc/internal/logic/publishlogic.go:31-89 | A fresh visible article without likes, added to the lists that exist at its time and at 0; errors change nothing; the request is the publish step of the drain |
| ArticleService.Service.ArticleDelete | application/article/rpc/internal/logic/articledeletelogic.go:29-59 | Exactly the author deletes; the article leaves both lists; errors change nothing; the request is the delete step of the drain |
| ArticleService.Service.ArticleOperate | application/article/mq/internal/logic/articlelogic.go:49-126 | The lists follow the rows in order up to and including the first one whose author is not found; then the message fails and the index stays; otherwise the index takes the documents in the order they are sent |
| ArticleService.ArticleRowIsRead | application/article/mq/internal/logic/articlelogic.go:56-110 | An article row written as text is applied to lists and index as that row |
| SearchIndex.BulkIgnoresOrderIff | application/article/mq/internal/logic/articlelogic.go:118-164 | Every order of a bulk leaves the same index iff it has no two versions of one article |
| SearchIndex.IndexConverges | application/article/mq/internal/logic/articlelogic.go:118-164 | After messages without two versions of one article the index shows the last row of every article, however each bulk is sent |
| ArticleService.Service.UpdateArticleLikeNum | application/article/mq/internal/logic/articlelikenumlogic.go:41-67 | The loop applies the readable rows of the article business in order |
| ArticleService.LikeMessageIsSteps | application/article/mq/internal/logic/articlelikenumlogic.go:41-67 | A message of n count rows written as text does what n single count changes of the drain do |
| ArticleService.LikeRowIsRead | application/article/mq/internal/logic/articlelikenumlogic.go:50-60 | A count row written as text is applied as that row |
| ArticleService.OnlyReadableRowsCount | application/article/mq/internal/logic/articlelikenumlogic.go:46-64 | Any row changes at most the like number of the one article it names, and only if it is of the article business and both numbers can be read |
| ArticleService.Service.AddCacheArticles | application/article/rpc/internal/logic/articleslogic.go:261-282 | What a fill that stops anywhere leaves in the list |
| ArticleService.Service.CachedArticles | application/article/rpc/internal/logic/articleslogic.go:81-172 | The cached page is made of some sorting of the fetched rows, or the request fails because a row is missing |
| ArticleService.Service.Articles | application/article/rpc/internal/logic/articleslogic.go:41-195 | Errors, cached page and first page of the query with its fill; Cursor 0 starts now for publish times and at 2^30 for like counts, and page size 0 is 20 |
| ArticleService.StartIsAbove | application/article/rpc/internal/logic/articleslogic.go:51-57 | A request with Cursor 0 starts above every list of past times, or of like counts up to 2^30 |
| ArticleService.FillWrites | application/article/rpc/internal/logic/articleslogic.go:178-282 | A complete fill of an absent list leaves exactly the rows found, at their like number or publish time, and -1 at score 0 iff between 1 and 199 rows were found; with -1 in it every visible article of the author below the cursor is there |
| ArticleClient.ReadArticles | application/article/rpc/internal/logic/articleslogic.go:41-195 | A client that starts with Cursor 0 and reads a list of all visible articles until isEnd, rows arriving in any order and no tie at a page boundary, stops with exactly the visible articles, each once |
| ArticleClient.FilledShowsVisible | application/article/rpc/internal/logic/articleslogic.go:178-282 | A complete fill from fewer than 200 rows leaves such a list when the query starts above all of the author's rows |
| ArticlePage.PageIgnoresFetchOrder | application/article/rpc/internal/logic/articleslogic.go:88-172 | Without ties every completion order gives the same page, cursor, id and cut |
| ArticlePage.SortingIsUniqueIff | application/article/rpc/internal/logic/articleslogic.go:93-104 | The sorted page is determined iff no two rows tie |
| ArticlePage.SortRows | application/article/rpc/internal/logic/articleslogic.go:104-104 | A descending permutation of the rows |
| ArticleService.CachedPageIsSlice | application/article/rpc/internal/logic/articleslogic.go:88-172 | With scores equal to the rows' keys the page is the slice of the list |
| ArticlePage.SentinelIsLast | application/article/rpc/internal/logic/articleslogic.go:266-276 | Among non-negative scores and positive ids, "-1" at score 0 stands last |
| ArticlePage.EndMeansEnd | application/article/rpc/internal/logic/articleslogic.go:83-85 | A page says isEnd iff it reached the end of the list |
| ArticleOrders.EveryOrderShowsAllIff | application/article/rpc/internal/logic/articleslogic.go:49-172 | For every complete cached list: in every order of arrival the client sees every article once and then isEnd, iff there is no article, or pages hold more than one and no article at a page boundary (ranks that are multiples of the page size less one) shares its score with a neighbour, sentinel included |
| ArticleTies.EveryOrderEndsIff | application/article/rpc/internal/logic/articleslogic.go:49-172 | For every complete cached list and every order of arrival: isEnd ever comes iff there is no article, or no page size of articles share a score and no page before the last ends with score 0 |
| ArticleTies.EveryOrderSameCursors | application/article/rpc/internal/logic/articleslogic.go:88-158 | The order of arrival never changes a cursor or isEnd of any response |
| ArticlePaging.PagingListsEveryArticle | application/article/rpc/internal/logic/articleslogic.go:49-172 | The special case of a list without ties: feeding (Cursor, ArticleId) back lists every cached article once and in list order, then says isEnd, whenever the condition of the next row holds |
| ArticlePaging.PagingEndsIff | application/article/rpc/internal/logic/articleslogic.go:49-172 | For a list without ties the condition of EveryOrderEndsIff in closed form: pages hold more than one article, and the last article has a score above 0 or does not stand at a page boundary |
| ArticlePaging.UntiedAnswer | application/article/rpc/internal/logic/articleslogic.go:88-172 | Without ties the response is determined, in whatever order the rows arrive |
| ArticlePaging.UnlikedNeverEnds | application/article/rpc/internal/logic/articleslogic.go:49-55 | Two articles, the second without a like, in pages of two: isEnd never comes |
| ArticlePaging.TiedArticleIsSkipped | application/article/rpc/internal/logic/articleslogic.go:93-172 | Two articles with the same count: a way the rows may arrive in which the client sees isEnd and never one of them |
| ArticleService.ServedPageIsAnswer | application/article/rpc/internal/logic/articleslogic.go:81-172 | With scores equal to the rows' numbers, what the service answers from the cache is a page that the list allows |
| Xcode.CodeSurvivesIff | pkg/xcode/status.go:87-195 | Over any hops and wraps the message arrives, and the code arrives iff it is an int32 |
| Xcode.CodeSurvivesWithoutDetails | pkg/xcode/status.go:120-121 | With every detail lost the number is read from the decimal text |
| Xcode.ContextErrorsArrive | pkg/xcode/status.go:143-163 | Cancelled and timed-out contexts arrive as 498 and 504 |
| Xcode.LastProtoDecides | pkg/xcode/status.go:185-195 | Of the details only the last protobuf message counts |
| Xcode.GrpcStatusToXCode | pkg/xcode/status.go:99-195 | The backward loop finds that detail and returns its code; without one the gRPC code decides, in numbers: 400, 401, 403, 404, 405, 503, 504, 509, 0 for OK, the text for Unknown and 500 for the rest |
| Xcode.BareStatusMeans | pkg/xcode/status.go:99-125 | The same with the messages |
| Xcode.DetailMeans | pkg/xcode/status.go:87-97 | Code and message of the last protobuf detail; another message type is 500 |
| Xcode.OtherErrorsArrive | pkg/xcode/status.go:143-163 | An error without a code arrives by its text over any hops: empty is 0, a number is itself, everything else 500 |
| Xcode.OtherIsServerErrorIff | pkg/xcode/status.go:120-121 | So over one hop it is 500 iff its text is neither empty nor another number |
| Xcode.GrpcErrorsArrive | pkg/interceptors/clienterrorinterceptor.go:13-24 | A gRPC error passed on by a handler arrives as what its status says, such as 503 for Unavailable |
| Xcode.HopWraps | pkg/interceptors/clienterrorinterceptor.go:17-19 | After a hop the client has the code wrapped in the decimal text of its number |
| Xcode.LocalErrorsRead | pkg/xcode/status.go:127-141 | Errors that carry no code read as 498, 504 or 500 on the same side |
| Decimal.ParseFormat | pkg/xcode/xcode.go:39-49 | Atoi undoes Itoa on every 64-bit integer |
| Decimal.ParseReads | pkg/xcode/xcode.go:39-49 | A text of digits with or without a sign is that number, leading zeros or not, within 64 bits; beyond, the nearest bound comes with the error |
| Decimal.ParseRejects | pkg/xcode/xcode.go:39-49 | Every other text is an error with value 0 |
| Decimal.FormatInjective | application/follow/rpc/internal/logic/followlogic.go:89-89 | Different ids have different texts |

## Left out

- Generated code, servers, handlers, configuration, metrics and tracing, searching, the user service, uploads, encryption, tokens and SMS codes: plumbing over libraries that cannot be seen.
- Concurrent Follow and UnFollow: the edge is read outside the transaction, so conservation is about requests one after the other.
- Cold paging with 1000 fans or more, after a fill that was cut off, or with follows in between: the next cursor may then lie below the whole list, so that the table is asked and the list filled again, or the list changes under the client; nothing is claimed about what it sees.
- Concurrent read-modify-write of an existing count row: transactions whose count row is there are atomic, and no absence of lost updates is claimed.
- Row caching of sqlc, singleflight, Kafka partitions and retries, MySQL isolation levels and column overflow.
- The state cache and the count cache of the like service: their writers are commented out, so the lookup is always a miss.
- FollowList beyond its fill: its rows come back without an order, so its pages have none to prove.
- Completeness of an article list after a fill: the query is cut off strictly below the cursor and, on ties, in any order.
- Articles in the states pending and not-passed: the repair leaves the lists as they are, and no agreement of lists and table is claimed for them.
- Row changes whose article or author id is not canonical decimal text, the parsing of their time text, and failures of Elasticsearch.
- The JSON form of queue messages, and messages that are not JSON.
- Negative page sizes, which make the slicing of a first page panic.
- Details attached to an error code by WithDetails, and codes whose message is not valid UTF-8.
