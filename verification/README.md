# Verified model of the feed generation service

This project models the four stateful cores of the system in Dafny and proves what they promise
over whole runs: the like counters, the feed read path, the two inbox tiers with their fan-out,
and the sharding layer under all of them. `dafny verify dfyconfig.toml` checks everything.

External stores are reduced to maps, sets and sorted sets. Each service object is a class whose
methods have the branches, loops and error paths of the code and are proved against a function or
relation on the stores; the theorems about runs are lemmas on those functions. Clocks, the graph,
fault points and arrival orders are parameters or unrestricted choices, so the theorems hold for
all of them.

| file | part of the system |
|---|---|
| `Prelude.dfy` | results, 64-bit integers, decimal IDs |
| `LikeStore.dfy`, `LikeService.dfy`, `LikeProtocol.dfy`, `LikeRaces.dfy` | likes: the stores, sequential calls with failures, interleaved calls, what every race can do |
| `RateLimit.dfy`, `LikeLimits.dfy` | the fixed-window limiter; the like calls behind it |
| `SortedSet.dfy`, `Inbox.dfy` | Redis sorted sets; hot inbox, cold log, promotion |
| `Fanout.dfy`, `Tiers.dfy`, `Returns.dfy` | the fan-out worker's tier decision; both tiers over runs of deliveries and reads; which posts reads return |
| `Diversity.dfy`, `Feed.dfy`, `FeedContent.dfy`, `Scroll.dfy` | author cap, ads, the `GetFeed` pipeline, what its pages show, scrolling by cursor |
| `Snowflake.dfy`, `Ring.dfy`, `Minting.dfy` | IDs, the hash ring in Go and Java, placement |
| `PostStorage.dfy`, `Users.dfy` | sharded posts and sign-up |

## Where the code differs from its description

Each of these is proved; where the expected behaviour holds under a condition, the condition is
proved with it.

- The limiter's documentation allows for a burst around a window boundary. The true worst case is
  `2 * limit - 1` calls in one window length, not `2 * limit`, and it is reached
  (`RateLimit.TwiceTheLimit`, `RateLimit.BoundIsReached`).
- A hot-inbox read with limit 0 returns the whole inbox, because the stop index becomes -1
  (`Inbox.ReadIsTopIff`).
- Promotion keeps the cold list's order, which is oldest first, although its comment says most
  recent first; and the next hot read equals the fallback read exactly when no post was appended
  twice (`Inbox.PromotionAgreesIff`).
- A rate-limit window is said to expire itself. After any run some later call is let in if and only
  if the key is not stuck: counted up to the limit with no EXPIRE run on it
  (`RateLimit.RefusedForGoodIffStuck`). A lost EXPIRE leads there (`RateLimit.LostExpireSticks`), and
  hits alone never lead out again (`RateLimit.LostExpireRefusesForGood`).
- A dormant user who returns is to find what the log kept. The read falls back on the first `limit`
  of a log that is oldest first, promotes once, and from then on the hot key hides the log. So a post
  that comes through the log alone is returned by some read if and only if some read finds no hot
  inbox while the post is among the first `limit` of the log, posts in the log being distinct
  (`Returns.ReturnedIffFellBack`; without that condition `Returns.ReturnedOnlyIfOffered`, and the
  input `Returns.RepeatRaisesPost` shows it is needed). Lost are the newest posts of an absence
  longer than the limit (`Returns.NewestOfAbsenceIsLost`) and all posts of any later absence
  (`Returns.SecondAbsenceIsLost`). The promotion copies, so its posts are in both tiers
  (`Tiers.ReadCopiesTheColdLog`).
- The clamp at zero is described as a defence against a decrement racing ahead of its increment.
  In that race it turns the early decrement into a lost one and leaves the counter one too high
  for good (`LikeProtocol.SameUserRaceDrifts`). The stores agree, and the clamp is never reached,
  as long as no call begins while one of the other kind, by the same user on the same post, is
  still writing; overlapping likes alone, or unlikes alone, do no harm
  (`LikeProtocol.CountersConserved`, `LikeProtocol.QuiescentStoresAgree`). That condition cannot be
  weakened: from every such run, a call that begins against it can end with the stores in
  disagreement (`LikeRaces.BreakingTheDisciplineDrifts`). For every run at all the drift is exactly
  its slips (`LikeProtocol.QuiescentDrift`).
- Invalidation by DEL keeps the cached sum exact in sequential calls (`LikeService.CountsAreExact`).
  In interleaved ones it does so exactly while no event takes away a post's last pending DEL and
  leaves a stale sum behind (`LikeProtocol.FreshThroughoutIff`, `LikeProtocol.CachedSumIsExact`);
  a DEL that overtakes a slow reader's SET is such an event (`LikeProtocol.CachedSumCanGoStale`), and
  what it leaves stays until the TTL, the next counter command or an exact SET
  (`LikeProtocol.HeldSumGoesStale`, `LikeProtocol.StaleSumStaysIff`).
- Cursors are meant to avoid drift while scrolling. The cursor counts from the top of a list that
  already lacks the returned posts, so following it passes over the best unseen ones
  (`Feed.CursorPassesOver`, `Scroll.SecondBestIsPassedOver`); on a pool in a fixed order every second
  page's worth is skipped (`Scroll.ScrollServesEvenBlocks`). Asking from the top instead delivers
  everything once (`Feed.PoolDrains`).
- A sign-up whose graph or directory write fails burns the name: no later call can complete it
  (`Users.OrphanNameStaysOrphan`).
- Unique usernames rest on one ring. Under another placement a taken name can be signed up again if
  and only if the other puts it on another shard (`Users.ReplacementBreaksUniquenessIff`); after
  shards are added, those are the names whose hash now meets a point of an added shard first
  (`Users.GrownRingReusesNameIff`).

## Model

| member | source | states |
|---|---|---|
| Prelude.ParseDecimal | services/feed-aggregation-service/internal/storage/postgres/pool.go:60-64 | every int64 ID survives being printed as a store key and parsed back |
| Prelude.ParseOutOfRange | services/feed-aggregation-service/internal/storage/postgres/pool.go:60-64 | a number outside int64 is refused, however it is printed |
| Prelude.DecimalInjective | services/feed-aggregation-service/internal/storage/postgres/post_meta_repo.go:118-119 | two different IDs never print to the same key |
| LikeStore.CounterShard | services/post-ingestion-service/internal/storage/redis/counter_repo.go:53-58 | the sub-counter index lies in [0, 16) for every int64 |
| LikeStore.CounterShardIsResidue | services/post-ingestion-service/internal/storage/redis/counter_repo.go:53-58 | the sub-counter is the absolute user ID modulo 16, and 0 for the minimum int64 |
| LikeStore.MinimumSurvives | services/post-ingestion-service/internal/storage/redis/counter_repo.go:53-58 | negation leaves a number non-negative except the minimum int64, which still lands on sub-counter 0 |
| LikeStore.TotalCountsLikers | services/post-ingestion-service/internal/storage/redis/counter_repo.go:99-118 | if each sub-counter holds its rows, the 16-key sum is the number of likers: the hash partitions them |
| LikeService.EngagementService.Like | services/post-ingestion-service/internal/service/engagement_service.go:54-84 | the four stores and the result after a like, for every rate verdict and every failing command; a call whose rate check works is refused exactly when the check says no, and then every store is as it was; success leaves exactly this row and mark added |
| LikeService.EngagementService.Unlike | services/post-ingestion-service/internal/service/engagement_service.go:86-113 | the same for an unlike: a refused one changes nothing, success leaves exactly this row and mark removed |
| LikeService.EngagementService.IncrLikeCount | services/post-ingestion-service/internal/storage/redis/counter_repo.go:64-70 | INCR, drop the cached sum, read back; a lost DEL is ignored |
| LikeService.EngagementService.DecrLikeCount | services/post-ingestion-service/internal/storage/redis/counter_repo.go:72-85 | DECR, clamp at zero, drop the cached sum, read back |
| LikeService.EngagementService.GetLikeCount | services/post-ingestion-service/internal/storage/redis/counter_repo.go:94-122 | a cached sum if there is one, else the sum over the 16 keys, which is then cached |
| LikeService.RefusedIff | services/post-ingestion-service/internal/service/engagement_service.go:59-61 | a call, like or unlike, is refused exactly when the rate check works and says no; refused, or with a check that fails, it touches no store |
| LikeService.RowThenMark | services/post-ingestion-service/internal/service/engagement_service.go:63-71 | past the check the row is written first and stays whatever fails later, the mark second; a call that dies at either leaves counters and cached sums alone |
| LikeService.CounterMoves | services/post-ingestion-service/internal/storage/redis/counter_repo.go:64-85 | the counter moves only for a row that changed, by one, on this user's sub-counter alone, clamped only after a DECR that ran without error |
| LikeService.CountReturned | services/post-ingestion-service/internal/storage/redis/counter_repo.go:94-122 | the count returned is the 16-key total, or the cached sum where none was dropped; other posts' cached sums stay |
| LikeService.RunsAreCoherent | services/post-ingestion-service/internal/service/engagement_service.go:49-113 | in every failure-free sequential run, with cached sums expiring at any moment: counters equal rows, cached sums equal totals, like sets equal rows |
| LikeService.CountsAreExact | services/post-ingestion-service/internal/storage/redis/counter_repo.go:60-85 | so each call returns exactly the number of users who like the post, and liking twice counts once |
| LikeService.CallKeepsCoherent | services/post-ingestion-service/internal/service/engagement_service.go:63-83 | one call keeps coherence and moves exactly its own row |
| LikeService.DriftIsBounded | services/post-ingestion-service/internal/storage/redis/counter_repo.go:72-85 | whatever fails in a sequential run, the summed distance between sub-counters and rows is at most the number of calls that died between row write and counter write |
| LikeService.ClampOnlyReduces | services/post-ingestion-service/internal/storage/redis/counter_repo.go:78-82 | in a sequential call the clamp never enlarges that distance |
| LikeProtocol.AloneIsSequential | services/post-ingestion-service/internal/service/engagement_service.go:63-83 | a thread of the step protocol that nobody interrupts leaves the stores and returns the count of the sequential call |
| LikeProtocol.LedgerStep | services/post-ingestion-service/internal/storage/redis/counter_repo.go:64-85 | from any state, counter plus pending INCRs minus pending DECRs minus rows changes only by a crash of an owing call or by the clamp |
| LikeProtocol.LedgerBalances | services/post-ingestion-service/internal/service/engagement_service.go:63-83 | in every interleaving, crashes and same-user races included, that ledger equals the sum of those slips |
| LikeProtocol.QuiescentDrift | services/post-ingestion-service/internal/storage/redis/counter_repo.go:72-85 | at rest, counter minus rows is exactly the run's slips |
| LikeProtocol.TotalLedger | services/post-ingestion-service/internal/storage/redis/counter_repo.go:99-118 | at every moment of every run the 16-key sum is the likers, less the calls whose INCR is to come, plus those whose DECR is, plus the slips so far |
| LikeProtocol.DecrementStaysNonNegative | services/post-ingestion-service/internal/storage/redis/counter_repo.go:78-82 | in every state of such a run (below), a DECR about to run finds a counter of at least 1 |
| LikeProtocol.DisciplinedKeepsInv | services/post-ingestion-service/internal/service/engagement_service.go:63-83 | every reachable state of a crash-free run in which no call begins while one of the other kind, by the same user on the same post, is still writing, satisfies the invariant: zero balance, one INCR at most to come per like, rows matching in-flight calls, like sets lagging only between the two writes, nobody at the clamp |
| LikeProtocol.CountersConserved | services/post-ingestion-service/internal/service/engagement_service.go:63-83 | conservation in every such interleaving, double taps and retries included: counter plus pending INCRs minus pending DECRs is the rows; counters never negative, clamp unreachable |
| LikeProtocol.QuiescentStoresAgree | services/post-ingestion-service/internal/storage/redis/like_state_repo.go:27-33 | at rest after such a run the 16 counters sum to the likers and the per-user like sets equal the rows |
| LikeProtocol.SumReadIsOffByPending | services/post-ingestion-service/internal/storage/redis/counter_repo.go:99-118 | the sum a call of such a run reads is off from the likers by exactly the calls on the post whose counter command is to come |
| LikeProtocol.SameUserRaceDrifts | services/post-ingestion-service/internal/storage/redis/counter_repo.go:78-82 | for every user and post, a legal run of an overlapping like and unlike ends with no row, a like mark and a counter of 1 |
| LikeProtocol.LateUnmarkLosesMark | services/post-ingestion-service/internal/service/engagement_service.go:97-112 | for every user and post, a legal run in which a like begins before an unlike removes its mark ends with row and counter and no like mark |
| LikeRaces.BreakingTheDisciplineDrifts | services/post-ingestion-service/internal/service/engagement_service.go:63-112 | from every run that keeps likes and unlikes of one user on one post apart, a call that begins against this has a continuation, every command succeeding, to a state at rest whose like set or sub-counter is wrong |
| LikeProtocol.CachedSumCanGoStale | services/post-ingestion-service/internal/storage/redis/counter_repo.go:94-122 | two users' concurrent likes can leave a cached sum of 1 on a post with two likers |
| LikeProtocol.FreshKeptIff | services/post-ingestion-service/internal/storage/redis/counter_repo.go:60-122 | from any state whose cached and about-to-be-cached sums of a post are exact or still to be dropped, an event keeps that so exactly when it does not take the last pending DEL away from a stale sum |
| LikeProtocol.FreshThroughoutIff | services/post-ingestion-service/internal/storage/redis/counter_repo.go:60-122 | so the sums of a post stay fresh throughout a run, with any users, kinds, overlaps and crashes, exactly when it has no such event |
| LikeProtocol.CachedSumIsExact | services/post-ingestion-service/internal/storage/redis/counter_repo.go:94-122 | in every such run the cached sum of a post with no DEL pending is the 16-key sum, and with likes and unlikes kept apart, at rest, the number of likers |
| LikeProtocol.HeldSumGoesStale | services/post-ingestion-service/internal/storage/redis/counter_repo.go:116-121 | a call left holding a stale sum with no DEL to come caches it by its next command |
| LikeProtocol.StaleSumStaysIff | services/post-ingestion-service/internal/storage/redis/counter_repo.go:64-122 | and a stale cached sum with no DEL to come survives exactly the events other than its expiry, a counter command on the post and the SET of an exact sum |
| RateLimit.RateLimiter.Allow | services/post-ingestion-service/internal/storage/redis/rate_limiter.go:26-41 | the key's state and the verdict after one call, with a failing INCR or a lost EXPIRE; other keys untouched |
| RateLimit.TwiceTheLimit | services/post-ingestion-service/internal/storage/redis/rate_limiter.go:26-41 | over every run of interleaved commands and every half-open interval of one window length, at most 2 * limit - 1 calls on a key are allowed, none if the limit is not positive |
| RateLimit.BoundIsReached | services/post-ingestion-service/internal/storage/redis/rate_limiter.go:32-39 | for every positive limit and window a legal run reaches that bound |
| RateLimit.LimitPerLifetime | services/post-ingestion-service/internal/storage/redis/rate_limiter.go:26-41 | within one key lifetime exactly the first `limit` hits are allowed |
| RateLimit.LostExpireRefusesForGood | services/post-ingestion-service/internal/storage/redis/rate_limiter.go:32-40 | while only hits follow, a key that is stuck stays so and every later call on it is refused |
| RateLimit.RefusedForGoodIffStuck | services/post-ingestion-service/internal/storage/redis/rate_limiter.go:26-41 | after any run and for every positive limit, some next call would be let in exactly when the key is not at its limit without an EXPIRE |
| RateLimit.LostExpireSticks | services/post-ingestion-service/internal/storage/redis/rate_limiter.go:32-40 | an input: the opening hit loses its EXPIRE, limit - 1 more follow, all are allowed and the key is stuck |
| LikeLimits.KeysDiffer | services/post-ingestion-service/internal/service/engagement_service.go:55-55 | two users, or two posts, never share a rate-limit window |
| LikeLimits.LimitedEngagement.Like | services/post-ingestion-service/internal/service/engagement_service.go:54-84 | rate check, then the call: refused exactly when the hit is past the limit, and then, or when the check errs, no store changes |
| LikeLimits.LimitedEngagement.Unlike | services/post-ingestion-service/internal/service/engagement_service.go:86-113 | the same for an unlike, on the window that likes use |
| LikeLimits.FewCallsReachTheStores | services/post-ingestion-service/internal/service/engagement_service.go:54-113 | in every run, with anything else happening to the stores in between, at most 2 * limit - 1 of one user's likes and unlikes of one post within one window length change any store, none if the limit is not positive |
| SortedSet.ZAddSpec | services/fanout-worker/src/main/java/com/feed/fanout/storage/redis/RedisHotInboxRepository.java:24-24 | ZADD replaces the member's entry, keeps the order and touches no other entry |
| SortedSet.LexLessIff | services/fanout-worker/src/main/java/com/feed/fanout/storage/redis/RedisHotInboxRepository.java:21-28 | among equal scores the order is the dictionary order of the member texts: a prefix first, else the first differing character decides |
| SortedSet.CutAddCut | services/fanout-worker/src/main/java/com/feed/fanout/storage/redis/RedisHotInboxRepository.java:24-26 | as long as scores only rise, trimming before an insertion loses nothing that trimming after it would keep |
| SortedSet.TopUnique | services/fanout-worker/src/main/java/com/feed/fanout/storage/redis/RedisHotInboxRepository.java:24-26 | a history has exactly one top-k listing, so "is the top k" pins the inbox down |
| Inbox.TrimKeepsBest | services/fanout-worker/src/main/java/com/feed/fanout/storage/redis/RedisHotInboxRepository.java:25-26 | ZREMRANGEBYRANK 0 -(max+1) keeps exactly the best max entries |
| Inbox.TrimOnceIsEnough | services/fanout-worker/src/main/java/com/feed/fanout/storage/redis/RedisHotInboxRepository.java:21-28 | from any inbox, trimming on each of any rising pushes equals one trim at the end |
| Inbox.PushesOverInbox | services/fanout-worker/src/main/java/com/feed/fanout/storage/redis/RedisHotInboxRepository.java:21-28 | the trimmed inbox is the top maxItems of everything pushed together with the entries it began with and no push replaced |
| Inbox.InboxIsTopOfHistory | services/fanout-worker/src/main/java/com/feed/fanout/storage/redis/RedisHotInboxRepository.java:21-28 | for any arrival order and any redeliveries, the inbox is the top maxItems, by score then member, of everything ever pushed |
| Inbox.DeliveryOrderIrrelevant | services/fanout-worker/src/main/java/com/feed/fanout/storage/redis/RedisHotInboxRepository.java:21-28 | two runs delivering the same events leave the same inbox |
| Inbox.ReadIsTopIff | services/feed-aggregation-service/internal/storage/redis/hot_inbox_repo.go:25-31 | a read within the cap is the best `limit` of the full history exactly when limit is at least 1 or the inbox is empty; limit 0 returns everything |
| Inbox.HotInboxRepo.PushToInbox | services/fanout-worker/src/main/java/com/feed/fanout/storage/redis/RedisHotInboxRepository.java:21-28 | the follower's inbox after ZADD and trim, or after the part of them that ran before the call threw; other inboxes untouched; an emptied key disappears |
| Inbox.HotInboxRepo.GetInbox | services/feed-aggregation-service/internal/storage/redis/hot_inbox_repo.go:25-31 | the first entries of the listing as in-network candidates without author, or the error |
| Inbox.HotInboxRepo.Promote | services/feed-aggregation-service/internal/storage/redis/hot_inbox_repo.go:53-67 | the inbox after one ZADD per cold entry, or after those a broken pipeline got through; unbroken, the whole list is in; nothing for an empty list |
| Inbox.ColdInboxRepo.Append | services/feed-aggregation-service/internal/storage/badger/cold_inbox_repo.go:65-89 | the user's list extended and cut to its last 800 entries, or nothing when the transaction fails; other users untouched |
| Inbox.ColdIsSuffixOfHistory | services/feed-aggregation-service/internal/storage/badger/cold_inbox_repo.go:77-81 | after any appends the cold list is the last 800 entries of the whole history |
| Inbox.ColdHoldsLast800 | services/feed-aggregation-service/internal/storage/badger/cold_inbox_repo.go:77-81 | the same with the constant written out: all of a history up to 800 appends, else its last 800 |
| Inbox.PromoteKeepsOrder | services/feed-aggregation-service/internal/storage/redis/hot_inbox_repo.go:59-64 | promoting distinct posts into a fresh inbox lists them in cold order |
| Inbox.PromotionAgreesIff | services/feed-aggregation-service/internal/service/feed_service.go:194-224 | fallback read and next hot read give the same posts in the same order, at every limit from 1, exactly when the cold list holds no post twice |
| Inbox.PushedAfterPromotionLeads | services/feed-aggregation-service/internal/storage/redis/hot_inbox_repo.go:53-67 | however far a promotion got, whatever posts with epoch-millis scores are pushed after it and at every cap: the inbox is well formed, holds only pushed and promoted entries, and lists every pushed one before every promoted one |
| Inbox.PushedOverPromotedIsTop | services/feed-aggregation-service/internal/storage/redis/hot_inbox_repo.go:53-67 | with one score per pushed post it is the top maxItems of the pushes and the promoted entries not pushed again |
| Inbox.BuriedByPromotion | services/feed-aggregation-service/internal/service/feed_service.go:213-224 | a promoted post at or past the read limit comes into no later read, whatever else is pushed, at every cap |
| Inbox.InNetworkCandidates | services/feed-aggregation-service/internal/service/feed_service.go:194-224 | an existing hot key hides the cold tier; a miss returns the cold list cut to the limit and, failure-free, fills the hot inbox with the whole list; with failing stores, an empty answer, except that a failed promotion is ignored |
| Fanout.FilterActive | services/fanout-worker/src/main/java/com/feed/fanout/storage/postgres/PostgresActivityRepository.java:36-70 | for every shard grouping and reply order: each active ID of the list once, as one unsharded query would find it; one failed shard fails the check |
| Fanout.QueryActive | services/fanout-worker/src/main/java/com/feed/fanout/storage/postgres/PostgresActivityRepository.java:72-92 | one shard's active rows, each once |
| Fanout.RemoveAllCounts | services/fanout-worker/src/main/java/com/feed/fanout/service/FanoutService.java:72-73 | dormant followers are the others, with their multiplicity |
| Fanout.FanoutService.Handle | services/fanout-worker/src/main/java/com/feed/fanout/service/FanoutService.java:46-89 | every user's hot inbox, cold log and the outbox after one event; a failed activity check writes nothing; a push that throws leaves the pushes before it and no cold append; a failed cold append is lost |
| Fanout.OneTierPerFollower | services/fanout-worker/src/main/java/com/feed/fanout/service/FanoutService.java:71-85 | distinct followers get exactly one write in one tier, hot exactly when the unsharded query calls them active, out-of-topology IDs cold; nobody else gets any |
| Fanout.RedeliveredPush | services/fanout-worker/src/main/java/com/feed/fanout/storage/redis/RedisHotInboxRepository.java:21-28 | pushing the same event again changes no hot inbox, whatever it held |
| Tiers.DeliveryReaches | services/fanout-worker/src/main/java/com/feed/fanout/service/FanoutService.java:46-89 | one delivery, as the runs take it: an active follower gets the post's entry, scored by its time, under the cap; a dormant one its candidate in the log; everybody else keeps both tiers |
| Tiers.PromotionComesFirst | services/feed-aggregation-service/internal/service/feed_service.go:194-224 | in every run of deliveries and reads a user is promoted at most once, and before any push |
| Tiers.TiersHoldTheFeed | services/fanout-worker/src/main/java/com/feed/fanout/service/FanoutService.java:65-85 | over runs of deliveries and reads, with users turning active and dormant and with pushes breaking off anywhere and appends lost: at most one read promotes; up to the cap the hot inbox is the top of what was pushed together with what was promoted and not pushed again, pushed before promoted, and it exceeds the cap only after an untrimmed push or promotion; the cold log is the last 800 of the events that reached it |
| Tiers.ColdIsHiddenForGood | services/feed-aggregation-service/internal/service/feed_service.go:194-224 | from the moment a user has a hot inbox, a post that comes only through the cold log after it is returned by no later read |
| Tiers.ReadCopiesTheColdLog | services/feed-aggregation-service/internal/service/feed_service.go:210-224 | one dormant delivery and one read leave the post in both tiers |
| Returns.ReturnedIffFellBack | services/feed-aggregation-service/internal/service/feed_service.go:194-224 | over every such run, with no post twice in the log, a post that comes through the log alone is returned by some read exactly when some read finds no hot inbox while the post is among the first `limit` of the log |
| Returns.ReturnedOnlyIfOffered | services/feed-aggregation-service/internal/service/feed_service.go:194-224 | in general only if some read finds no hot inbox and the post among the first `limit` of the log or of what it promotes |
| Returns.PassedOverForGood | services/feed-aggregation-service/internal/service/feed_service.go:213-224 | a post that the promoting read passes over is returned by no read of any continuation |
| Returns.NewestReturnedIff | services/feed-aggregation-service/internal/service/feed_service.go:194-224 | a new post delivered to the log is in the read right after exactly when there is no hot inbox and the log is no longer than the limit |
| Returns.SecondAbsenceIsLost | services/feed-aggregation-service/internal/service/feed_service.go:194-224 | an input: delivery, read, delivery; the second post stands in the log and no limit brings it out |
| Returns.NewestOfAbsenceIsLost | services/feed-aggregation-service/internal/service/feed_service.go:213-224 | an input: two deliveries at limit 1; the read returns the older, and the newer is never returned |
| Returns.RepeatRaisesPost | services/feed-aggregation-service/internal/storage/redis/hot_inbox_repo.go:53-67 | an input with one post twice in the log: the fallback passes the next post over, the next hot read returns it |
| Diversity.ApplyDiversity | services/feed-aggregation-service/internal/service/diversity.go:9-20 | the counting loop computes the capped list |
| Diversity.KeepsEachAuthorsBest | services/feed-aggregation-service/internal/service/diversity.go:12-18 | of every author exactly the leading posts up to the cap are kept |
| Diversity.KeptIsSubsequence | services/feed-aggregation-service/internal/service/diversity.go:5-8 | the kept items are a subsequence in rank order |
| Diversity.KeptIsFeasible | services/feed-aggregation-service/internal/service/diversity.go:9-20 | the kept list itself respects the cap |
| Diversity.NoLongerSelection | services/feed-aggregation-service/internal/service/diversity.go:9-20 | no selection with at most the cap per author is longer |
| Diversity.KeptComesFirst | services/feed-aggregation-service/internal/service/diversity.go:9-20 | position by position, the kept items stand no later in the ranking than those of any feasible selection |
| Diversity.GreedyCapIsOptimal | services/feed-aggregation-service/internal/service/diversity.go:9-20 | on a list in descending score order the greedy cap beats every feasible selection score by score at every position |
| Diversity.InsertAds | services/feed-aggregation-service/internal/service/diversity.go:30-57 | ads at exactly positions 3 and 8, the first ad at 3 and the second at 8, organic items in order elsewhere, cut to the page size |
| Diversity.AdsLoseNothingIff | services/feed-aggregation-service/internal/service/diversity.go:27-57 | organic items are never replaced, repeated or reordered, and all are on the page exactly when they fit its organic slots |
| Diversity.ReservedSlotsSuffice | services/feed-aggregation-service/internal/service/feed_service.go:128-153 | with two slots reserved all n items appear, the page has n plus one ad from 2 items and another from 6, within the page size |
| Feed.Merge | services/feed-aggregation-service/internal/service/feed_service.go:72-83 | the nested loops compute first appearances and their sources |
| Feed.FirstSeenSpec | services/feed-aggregation-service/internal/service/feed_service.go:72-83 | merged IDs are distinct, exactly the candidates' IDs, each with a source |
| Feed.FirstCandidateWins | services/feed-aggregation-service/internal/service/feed_service.go:76-81 | a post's place and source come from its first candidate, whatever follows |
| Feed.FilterUnseen | services/feed-aggregation-service/internal/storage/redis/seen_state_repo.go:24-46 | the loop keeps, in order, what is unmarked or marked before the cutoff |
| Feed.UnseenHolds | services/feed-aggregation-service/internal/storage/redis/seen_state_repo.go:37-44 | an ID passes exactly when it was asked for and is fresh |
| Feed.MarkAllSpec | services/feed-aggregation-service/internal/storage/redis/seen_state_repo.go:48-61 | marking sets the given IDs to now and leaves all others |
| Feed.Rank | services/ranking-service/src/main.rs:195-207 | from any input order: every post once, each with the score of its own row, descending score, any order among ties |
| Feed.WindowLegalIff | services/feed-aggregation-service/internal/service/feed_service.go:124-132 | the page slice is legal for every list and cursor exactly when the page size is at least 2 |
| Feed.FeedService.GetFeed | services/feed-aggregation-service/internal/service/feed_service.go:64-166 | the whole call, outages, a broken marking pipeline and an undecodable cursor included: which page is served, ranked by the scores of the posts' own rows; that the response's organic items are exactly it, with ads at positions 3 and 8 and nothing else; the next cursor; that the page is marked seen, in full when the pipeline does not break, as far as it got when it does; that such a call is a step of the histories below; and that other users' state is untouched |
| Feed.FeedService.MarkSeen | services/feed-aggregation-service/internal/storage/redis/seen_state_repo.go:48-61 | an unbroken pipeline marks every given ID with the time of the call, a broken one the part before the break; other IDs and users untouched |
| Feed.FeedService.RankAndCut | services/feed-aggregation-service/internal/service/feed_service.go:113-132 | rank by the rows' scores, cap and slice: the window of the capped ranking at the cursor |
| Feed.FeedService.Render | services/feed-aggregation-service/internal/service/feed_service.go:140-153 | organic items of the rendered page are the page's posts with their metadata; ads exactly at positions 3 and 8; the exact length |
| Feed.ServedPage | services/feed-aggregation-service/internal/service/feed_service.go:85-150 | a served page holds distinct, fresh, hydrated candidates |
| FeedContent.HydratedIff | services/feed-aggregation-service/internal/service/feed_service.go:72-107 | the posts a call hydrates are exactly those that some source names, that have a row, and, unless the filter is down, that are unmarked or were marked longer than the TTL ago |
| FeedContent.HydratedAs | services/feed-aggregation-service/internal/service/feed_service.go:98-107 | each with its own row and the counts given for it, zero where there is none |
| FeedContent.ItemShowsItsPost | services/feed-aggregation-service/internal/service/feed_service.go:140-153 | every organic item of a response shows author, media, caption and time of its own row, the counts and like flag given for it, its first candidate's source and its hydrated row's score |
| FeedContent.NothingBetterComesLater | services/feed-aggregation-service/internal/service/feed_service.go:113-132 | at any cursor, a considered post neither on the page nor above it, its author having room left down to the end of the page, outscores no post of the page by the scores of the rows themselves |
| FeedContent.NothingBetterIsLeftOff | services/feed-aggregation-service/internal/service/feed_service.go:113-132 | asked from the top, a considered post that is not on the page, its author having room left, outscores no post of the page by the scores of the rows themselves |
| Feed.SeenRemembers | services/feed-aggregation-service/internal/service/feed_service.go:155-158 | the seen set never forgets or back-dates a post returned since the last reset |
| Feed.NoRepeatWithinTTL | services/feed-aggregation-service/internal/service/feed_service.go:72-160 | in every run, with any cursors and any change of candidates, a post returned again was last returned more than the TTL ago |
| FeedContent.ConsideredIff | services/feed-aggregation-service/internal/storage/redis/seen_state_repo.go:24-61 | over every history from an empty seen set, a call considers exactly the named posts with a row whose every showing since the last reset is more than the TTL ago: a post comes back as soon as it may |
| FeedContent.CallNeverRepeats | services/feed-aggregation-service/internal/service/feed_service.go:72-160 | a call that leaves what GetFeed promises is the next step of the history, and shows nothing that the history showed within the TTL |
| Feed.CursorPassesOver | services/feed-aggregation-service/internal/service/feed_service.go:122-132 | following the issued cursor inside the TTL passes over exactly the leading unseen posts up to the offset, which neither page returns; none exactly when the offset is 0 or nothing is left |
| Scroll.SecondBestIsPassedOver | services/feed-aggregation-service/internal/service/feed_service.go:122-132 | an input: page size 3, three posts by three authors; the first page is the best, the next at its cursor the third, the second is passed over |
| Scroll.ScrollServesEvenBlocks | services/feed-aggregation-service/internal/service/feed_service.go:122-132 | on a pool in a fixed order with a cap that does not bind, following the issued cursors inside one TTL serves blocks 0, 2, 4, ... of page size less 2 posts |
| Scroll.HalfIsDelivered | services/feed-aggregation-service/internal/service/feed_service.go:122-132 | so k calls deliver exactly the positions whose block, the position divided by page size less 2, is even and below 2k |
| Scroll.PassedOverIsScroll | services/feed-aggregation-service/internal/service/feed_service.go:122-132 | the run that passes the second post over is such a scroll, so the two theorems above apply to it |
| Feed.DrainStep | services/feed-aggregation-service/internal/service/feed_service.go:85-160 | a call on a fixed pool returns only undelivered posts, and at least one while any is left |
| Feed.PoolDrains | services/feed-aggregation-service/internal/service/feed_service.go:85-160 | repeated calls inside one TTL deliver every post of the pool exactly once, all within pool-size calls, then empty pages |
| Snowflake.ExtractPack | pkg/sharding/snowflake.go:63-70 | the minting shard is read back from every ID, whatever the clock said, wrapped timestamps included |
| Snowflake.OrIsSum | pkg/sharding/snowflake.go:63-63 | at the bit level the three fields share no bit, so or-ing them adds them |
| Snowflake.PackIsOr | pkg/sharding/snowflake.go:63-63 | the 64 bits of an ID are the shifted timestamp, overflow dropped, or-ed bit by bit with the shifted shard and the sequence |
| Snowflake.IDGenerator.Next | pkg/sharding/snowflake.go:46-64 | generator state and ID after one call: the last reading, and the sequence counted up within its millisecond, else 0; a spin ends at the first reading past the exhausted millisecond |
| Snowflake.AdvanceFollowsClock | pkg/sharding/snowflake.go:46-62 | whatever the clock says, a call stamps the reading itself, the last one after a spin, and counts up exactly within a millisecond that is not used up |
| Snowflake.StepIncreasesIff | pkg/sharding/snowflake.go:50-63 | an ID exceeds its predecessor exactly when the clock did not step back |
| Snowflake.BackwardClockRepeats | pkg/sharding/snowflake.go:58-61 | a clock stepping back makes a generator repeat an ID |
| Snowflake.RunOfIds | pkg/sharding/snowflake.go:28-64 | over any run on any number of shards: each ID is non-negative, routes to its shard, exceeds all earlier IDs of that shard and differs from all earlier IDs of any shard |
| Snowflake.MillisecondCapacity | pkg/sharding/snowflake.go:52-57 | no millisecond of any run carries more than 16384 IDs of one shard |
| Ring.Ring.constructor | pkg/sharding/ring.go:32-52 | the built slice is sorted and holds exactly the topology's points |
| Ring.VnodeKeysDiffer | pkg/sharding/ring.go:43-43 | every virtual node of every shard has a key of its own |
| Ring.PointsAreVnodes | pkg/sharding/ring.go:36-48 | the ring's points are the checksums of the keys vnode-v-shard-s, for v below the count and s a configured shard, and no others |
| Ring.CollisionIsChecksums | services/fanout-worker/src/main/java/com/feed/sharding/ShardRing.java:28-33 | a checksum that tells the vnode keys apart makes every topology free of collisions: two shards meet at one hash only where the checksum collides on different keys |
| Ring.Ring.Search | pkg/sharding/ring.go:60-60 | binary search returns the first node at or past the hash |
| Ring.Ring.ShardForNewEntity | pkg/sharding/ring.go:58-65 | the returned shard owns the key's hash: its point is nearest clockwise |
| Ring.PlacementOwns | pkg/sharding/ring.go:58-65 | the placement function of a ring gives an owner of the hash of every key |
| Ring.SortSlice | pkg/sharding/ring.go:50-50 | sorted by hash and a permutation, any order among ties |
| Ring.ShardRing.constructor | services/fanout-worker/src/main/java/com/feed/sharding/ShardRing.java:23-34 | every map entry is a point and every point's hash has an entry, later puts winning |
| Ring.ShardRing.ShardForNewEntity | services/fanout-worker/src/main/java/com/feed/sharding/ShardRing.java:46-51 | tailMap/firstKey with wrap returns an owner of the key's hash |
| Ring.FirstIsNearest | services/fanout-worker/src/main/java/com/feed/sharding/ShardRing.java:46-51 | the first key of the tail, or of the map, is nearest clockwise |
| Ring.OwnerUnique | pkg/sharding/ring.go:19-21 | without cross-shard collisions a hash has one owner |
| Ring.UniqueIffCollisionFree | pkg/sharding/ring.go:19-21 | owners are unique for all hashes exactly when no two shards have a point at one hash |
| Ring.Parity | services/fanout-worker/src/main/java/com/feed/sharding/ShardRing.java:23-51 | Go ring and Java ring of the same collision-free topology place every key on the same shard, shards listed in any order |
| Ring.OrderIrrelevant | pkg/sharding/ring.go:34-49 | the order of shards in the config changes no point |
| Ring.MinimalDisruption | pkg/sharding/ring.go:32-65 | adding shards moves keys only to added shards; removing shards moves only keys that were on them |
| Ring.MovesIff | pkg/sharding/ring.go:32-65 | a key moves exactly when an added shard has a point nearer clockwise than every old one |
| Minting.ShardedPool.PlaceNewEntity | services/post-ingestion-service/internal/storage/postgres/pool.go:78-84 | the new ID is what the generator of the shard the ring chose for the key mints next, and routes to that shard |
| Minting.ShardedPool.NewIDInheritingShard | services/post-ingestion-service/internal/storage/postgres/pool.go:108-110 | the same on the existing ID's shard; outside the topology the call panics |
| Minting.MintIsNew | pkg/sharding/snowflake.go:46-64 | on a clock that does not step back, a minted ID differs from every ID its generator had left behind, and leaves itself behind |
| PostStorage.LogicalIsUnion | services/post-ingestion-service/internal/storage/postgres/post_repo.go:22-32 | the logical table is the union of the shards, one row per key, found on the shard in the key |
| PostStorage.InsertIntoLogical | services/post-ingestion-service/internal/storage/postgres/post_repo.go:22-32 | a create is an insert into the logical table, with the same duplicate-key failures |
| PostStorage.RunRefinesOneTable | services/post-ingestion-service/internal/service/post_service.go:35-60 | every run of creates, IDs minted by the authors' shards and other mints in between, reaches the state a single database would, rows staying on their author's shard |
| PostStorage.RowsAreAskedFor | services/post-ingestion-service/internal/service/post_service.go:40-51 | over every run no row is changed or lost, and every new one carries the author, media, caption and time that some create of the run was given |
| PostStorage.ReturnedIsFound | services/post-ingestion-service/internal/service/post_service.go:40-51 | a post that a create returned stays under its own ID for the rest of the run, and an unlimited query by authors finds it exactly when it names the author the create was given |
| PostStorage.CreateSucceedsIff | services/post-ingestion-service/internal/service/post_service.go:35-60 | on a clock that does not step back a create succeeds exactly when its input is valid, its author's shard is configured and the insert reports no error; no key ever collides |
| PostStorage.ShardedPool.Create | services/post-ingestion-service/internal/storage/postgres/post_repo.go:22-32 | the row goes to the shard in its ID, under its primary key, unless the database fails before or reports an error after the commit |
| PostStorage.PostService.CreatePost | services/post-ingestion-service/internal/service/post_service.go:35-60 | validation, minting on the author's shard, insert and publish: tables, generators and result in every case, with an insert that fails before or after it commits; the post returned is the caller's author, media, caption and time under a key that was free, and is stored; input is refused exactly when it is invalid; a failed publish leaves the row |
| PostStorage.ShardedPool.GroupByShard | services/feed-aggregation-service/internal/storage/postgres/post_meta_repo.go:29-44 | buckets hold exactly the parsable IDs of configured shards, in order |
| PostStorage.ShardedPool.GetBatch | services/feed-aggregation-service/internal/storage/postgres/post_meta_repo.go:49-95 | for every reply order the result is the lookup of the requested IDs in the logical table; it fails exactly when a needed shard fails |
| PostStorage.LookupUnique | services/feed-aggregation-service/internal/storage/postgres/post_meta_repo.go:78-94 | that lookup determines the answer |
| PostStorage.ShardedPool.RecentByAuthors | services/feed-aggregation-service/internal/storage/postgres/post_meta_repo.go:132-179 | a repeat-free subset of the authors' posts, complete exactly when no shard exceeds its LIMIT |
| PostStorage.ShardedPool.QueryRecent | services/feed-aggregation-service/internal/storage/postgres/post_meta_repo.go:181-212 | one shard's newest matching rows up to the LIMIT, newest first |
| PostStorage.RecentOfTable | services/feed-aggregation-service/internal/storage/postgres/post_meta_repo.go:181-212 | such an answer holds rows of the asked authors, newest first, and a row of theirs is missing only from a full answer with nothing older in it |
| Users.UserService.CreateUser | services/post-ingestion-service/internal/service/user_service.go:40-58 | ID minted on the ring's shard for the name, then users table, graph, directory and result in every case, with a failure after any write; the user returned has the caller's name and activity time and is in all three stores |
| Users.UserService.GetByID | services/post-ingestion-service/internal/storage/postgres/user_repo.go:46-59 | routing by the ID alone finds every committed user on any shard, unless the query fails; a shard outside the topology, a failed query and a missing row are different errors |
| Users.SignupKeepsConsistent | services/post-ingestion-service/internal/service/user_service.go:45-57 | one sign-up placed by the ring keeps rows placed and unique, directory and graph pointing at committed users, and loses no user |
| Users.GapOpensIff | services/post-ingestion-service/internal/service/user_service.go:37-57 | a successful sign-up is in all three stores; a failed one leaves a committed name without directory entry exactly when it failed after its row committed |
| Users.FailureLeaves | services/post-ingestion-service/internal/service/user_service.go:48-57 | once the row commits, each failure leaves out the later writes and only them, and reports the write that failed |
| Users.RowsAreAskedFor | services/post-ingestion-service/internal/service/user_service.go:45-50 | over every run no users row is changed or lost, and every new one carries the name and activity time of some sign-up of the run |
| Users.UsernamesGloballyUnique | services/post-ingestion-service/internal/storage/postgres/user_repo.go:35-42 | with one ring's placement, in every run no two committed users share a name, and every directory entry and graph node names its committed user |
| Users.TakenIffCommitted | services/post-ingestion-service/internal/storage/postgres/user_repo.go:35-42 | on a clock that does not step back a sign-up that reaches the insert reports AlreadyExists exactly when some committed user has the name: never because of a repeated ID |
| Users.SignupSucceedsIff | services/post-ingestion-service/internal/service/user_service.go:40-58 | on a clock that does not step back a sign-up succeeds exactly when its name is neither empty, longer than 64, nor any committed user's, the ring puts it on a configured shard, and no write fails |
| Users.ReplacementBreaksUniquenessIff | services/post-ingestion-service/internal/service/user_service.go:32-39 | after any sign-ups under one placement, a sign-up of a taken name under another succeeds, and two committed users share the name, exactly when the other puts the name on another shard |
| Users.GrownRingReusesNameIff | pkg/sharding/ring.go:32-65 | after shards are added, the taken names that can be signed up again are exactly those whose hash meets a point of an added shard before every old one |
| Users.DirectoryIffSucceeded | services/post-ingestion-service/internal/service/user_service.go:54-57 | the directory knows exactly the names of successful sign-ups |
| Users.OrphanNameStaysOrphan | services/post-ingestion-service/internal/service/user_service.go:37-56 | a name committed without directory entry never gets one: all later sign-ups of it fail |

## Left out

- HTTP and gRPC transport, Kafka, MinIO, Qdrant, Neo4j queries, configuration loading, the web UI and scripts: I/O around the cores.
- FlatBuffers and protobuf encoding; item IDs pass through the ranking call unchanged.
- Cursor encryption: a cursor is its integer offset, and any offset may be presented.
- CRC32 itself and the evenness of the ring: the checksum is an arbitrary function to 32-bit values.
- Score formulas: a score is any real number per post, so NaN and rounding are not modelled.
- Integer overflow of Redis counters and of millisecond clocks beyond 41 bits.
- Concurrent cold appends for one user, concurrent feed calls of one user, and a push in the middle of a promoting read: each call is one step.
- Celebrity outbox reads and vector search: they only supply candidates, which are arbitrary here.
- ListRecentByAuthors on the write side: RecentByAuthors with a final sort.
- Comments, mentions, follows, and the Java and TypeScript ID generators.
- Failing graph queries inside handle: nothing is written.
- Store errors of the celebrity and vector sources: they leave fewer candidates, and those are arbitrary here.
- Scores of sorted sets are integers; the doubles behind them are exact for epoch milliseconds.
- LikeService.ClampOnlyReduces: sequential calls only; under concurrency the clamp can enlarge the drift, as SameUserRaceDrifts shows.
- Inbox.ColdInboxRepo.Append: a stored list that does not decode is not modelled.
- Feed.FeedService.GetFeed: candidate IDs are canonical decimals, as every producer prints them; an ID such as 007 would be hydrated under 7.
- Minting.MintIsNew: one generator per shard and process; two processes minting on one shard are not modelled.
