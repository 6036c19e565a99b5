# libasyik: a verified model of its core algorithms

This project models the parts of libasyik that carry algorithms of their own, and proves
what they promise over all inputs, all histories and all interleavings:

- the **segmented time-to-live cache** (`SegmentList`, `Memcache`, `CacheRefinement`,
  `CacheReplay`), which refines a flat map from key to value and deadline;
- the **token-bucket rate limiter** over that cache (`TokenBucket`, `LimiterStack`,
  `RateLimit`, `RateBounds`, `RateLoss`), in the 32- and 64-bit words of the source;
- the **route compiler and three-tier route table** (`RoutePattern`, `RouteSpec`, `RouteText`,
  `RouteTable`), which refine a plain first-match scan;
- the **service's task and shutdown protocol** (`ServiceProtocol`, `ServiceProgress`) and the
  **SQL connection pool** (`SqlPool`, `SqlSessions`), as step systems whose participants
  interleave freely;
- the **multipart boundary search** (`Multipart`), **range responses** (`StaticRange`) and
  the two **free-list allocators** (`Allocators`).

Objects that the source updates in place are classes with the same fields, and its loops are
loops; each method is proved against a function of the old state, and the properties are
lemmas about runs of those functions. Clock readings, what the operating system returns for
a read or a new block, and a raw regex route's engine are inputs.

The strongest results, in the system's own terms:

- Every history of cache calls is answered as the flat map would answer it; an entry lives at
  least `expiry` and at most `expiry` plus one partition after its last put or touch; when the
  background fiber prunes can be observed in nothing but the flag of `erase`; at most
  `segments + 1` segments are unexpired.
- An erase returns true exactly when its key was stored and no prune came after the key's
  deadline.
- The limiter never grants a key more than `max_bucket + (rate*D + 999)/1000` tokens in any
  window of `D` ms that no reset divides, for any mix of keys, sizes, gaps, polls, prunes and
  forgotten keys, in the source's 32-bit arithmetic. The 999 can be left out exactly for limits of at least 1000
  tokens a second (or an empty bucket), and in runs without zero-token checkpoints. The loss
  to rounding, until the bucket fills, is less than `rate` thousandths of a token per refill.
- A limiter whose cache forgets idle keys gives the same grants and counts as one that never
  forgets. In 32-bit words so does it for every key whose own polls come within 2^32 - 107250 ms
  of its checkpoints, whatever happens to other keys.
- Compiling a route spec undoes writing it: texts and tags come back as characters and groups.
- `route_table::find` returns what a scan over all registrations returns. For routes compiled
  from their specs the prefix test changes nothing, and the hash changes nothing on the targets
  it is right about: the result is the first route whose method fits and whose pattern accepts.
- In every interleaving the service's counters are exact, tasks start in the order of their
  pushes, each makes its steps in one order, at most one starts after a stop, no fiber starts after the dispatcher was joined, and
  connections in the SQL pool are neither lost, shared nor duplicated. The join in `run`,
  `run` itself once its deadlines have passed, and every health pass of the pool end within a
  stated number of steps.

Eight properties one would expect turned out false. Each has a counterexample and the exact
condition under which it holds:

- When the background fiber prunes can be seen in the flag that `erase` returns for an expired
  key (`EraseFlagSeesPrunes`; exactly when, `EraseFlagExact` and `EraseFlagsAgree`).
- Polling `get_remaining` for 2^32 ms (49.7 days) makes a full bucket read as empty
  (`PollingWraps`). `PollingExact` says exactly which polls count right and
  `GrantAfterPollsExact` which grants are right; no key with close polls of its own is affected
  (`WraparoundHarmless`).
- The limiter's constructor refuses buckets that 100 seconds would fill (`GuardWraps`): exactly
  for rates whose product with 100 does not fit 32 bits (`GuardExactly`).
- The rate bound without the extra token fails after a zero-token checkpoint, for every limit
  below 1000 tokens a second with a bucket (`ZeroPointBuysAToken`), and for no other limit
  (`TightExactly`). It holds in every run without such checkpoints
  (`RateBoundForPositivePoints`).
- A static route whose spec is a path longer than `//` that ends in `//` has targets its pattern
  accepts and the hash misses; no other static spec has (`HashMissesOnlyDoubleSlash`).
- The hash finds targets that the pattern rejects: `//` for the spec `/` (`RootHashesMore`), the
  bare path of a spec with a query (`QuerySpecHashesMore`), and any path with a malformed query
  (`BadQueryHashesMore`). `HashIsPatternExactly` says for which specs hash and pattern agree on
  all targets up to the query, `HashIsRightExactly` on which single targets they agree.
- The outcome of a multipart search can depend on how the reads cut the stream: exactly when a
  closing line not yet buffered ends before the first boundary line, within one read
  (`CutIndependence`).
- `block_pool` hands out blocks that are too small as soon as two of the sizes asked of it fit
  its block size, and only then (`SafeSizes`); `shared_object_pool` asks for one size.

Where comments and code disagree the model follows the code: `extract_static_prefix` returns
everything before the first `<`, not everything up to the last slash; the prefix tier is
scanned, not searched by bisection. A range whose last byte lies beyond the end of the file is
answered with the whole file, where section 2.1 of RFC 7233 would shorten it.

## Model

| member | source | states |
|---|---|---|
| SegmentList.EarlyStopIsFullScan | include/libasyik/memcache.hpp:176-187 | stopping at the first expired segment finds what a scan of all segments finds |
| SegmentList.InsertLive | include/libasyik/memcache.hpp:199-203 | a stored key is found with its new value until the deadline of the youngest segment; every other key is found as before |
| SegmentList.PruneLive | include/libasyik/memcache.hpp:222-232 | pruning changes no lookup at or after its time |
| SegmentList.EraseLive | include/libasyik/memcache.hpp:67-73 | an erased key is found at no time; every other key as before |
| SegmentList.ModifyLive | include/libasyik/memcache.hpp:133-143 | visiting changes the value of an entry live at the visit, and no deadline |
| SegmentList.PartitionIsExact | include/libasyik/memcache.hpp:162-163 | expiry in milliseconds, and a partition is the largest number of which `segments` fit into it |
| SegmentList.DeadlineWindow | include/libasyik/memcache.hpp:189-197 | an entry stored at p expires with the youngest segment if that lives until p + 1000 * expiry, otherwise at p + 1000 * expiry + 1000 * expiry / segments |
| SegmentList.SizeCountsLiveKeys | include/libasyik/memcache.hpp:145-157 | the sum of the unexpired segments' sizes counts every live key once |
| SegmentList.SegmentBound | include/libasyik/memcache.hpp:162-163 | segments more than a partition apart and not newer than the clock allows: at most segments + 1 are unexpired |
| Memcache.MovedIsInserted | include/libasyik/memcache.hpp:207-220 | moving a touched entry to the youngest segment equals erasing and storing it, and the emplace there always succeeds |
| Memcache.Cache.Put | include/libasyik/memcache.hpp:59-64 | the key stands in the youngest segment with the new value and nowhere else, the other entries where they were |
| Memcache.Cache.Erase | include/libasyik/memcache.hpp:66-73 | the key is gone from every segment, and the flag says whether any segment held it |
| Memcache.Cache.Clear | include/libasyik/memcache.hpp:75-79 | no segment is left |
| Memcache.Cache.Get | include/libasyik/memcache.hpp:81-111 | get and try_get: the live value, moved to the youngest segment, or none; two clock readings |
| Memcache.Cache.At | include/libasyik/memcache.hpp:91-97 | the live value by a full scan, nothing changed |
| Memcache.Cache.Contains | include/libasyik/memcache.hpp:113-119 | whether a full scan finds a live entry, nothing changed |
| Memcache.Cache.GetOrPut | include/libasyik/memcache.hpp:121-131 | the live value, touched, or the made value, stored |
| Memcache.Cache.Visit | include/libasyik/memcache.hpp:133-143 | f applied where the live entry stands, deadlines kept, and whether there was one |
| Memcache.Cache.Size | include/libasyik/memcache.hpp:145-157 | the number of distinct live keys |
| Memcache.Cache.FindLiveIndex | include/libasyik/memcache.hpp:178-187 | the first unexpired segment holding the key, or none if the key is not live |
| Memcache.Cache.SegmentWith | include/libasyik/memcache.hpp:195 | operator[] of the ordered map: finds or inserts in order |
| Memcache.Cache.YoungestSegment | include/libasyik/memcache.hpp:189-197 | the segment for new entries is always the first one |
| Memcache.Cache.InsertEntry | include/libasyik/memcache.hpp:199-203 | erases the key everywhere and stores it in the youngest segment |
| Memcache.Cache.TouchEntry | include/libasyik/memcache.hpp:205-220 | prunes, then moves a live entry to the youngest segment |
| Memcache.Cache.PruneExpired | include/libasyik/memcache.hpp:222-232 | exactly the expired segments are gone |
| CacheRefinement.StepRefines | include/libasyik/memcache.hpp:60-157 | every operation keeps the simulation with the flat map and returns its result |
| CacheRefinement.RunRefines | include/libasyik/memcache.hpp:60-232 | so does every history with a clock that never goes back |
| CacheRefinement.PruningUnobservable | include/libasyik/memcache.hpp:246-265 | histories that differ only in their prunes give the same results, erase's flag aside |
| CacheRefinement.EraseFlagExact | include/libasyik/memcache.hpp:66-73 | in every history erase returns true if and only if its key was stored and no prune came after its deadline |
| CacheRefinement.EraseFlagsAgree | include/libasyik/memcache.hpp:66-73 | histories that differ only in their prunes agree on the flag exactly when they agree on whether a prune came after the deadline |
| CacheRefinement.EraseFlagSeesPrunes | include/libasyik/memcache.hpp:66-73 | they can disagree |
| CacheRefinement.LifetimeWindow | include/libasyik/memcache.hpp:189-220 | after any history an entry last put or touched at p is found until p + 1000 * expiry and not after 1000 * expiry / segments more |
| CacheRefinement.OperationOnKey | include/libasyik/memcache.hpp:59-157 | after any history, in terms of lookups alone: what put, get, get_or_put and visit return and from when on the value lives, that erase and clear remove, and that all else leaves a key as it is |
| CacheRefinement.FirstPutsExactly | include/libasyik/memcache.hpp:189-203 | the exact deadline of the first entry of an empty cache, and of a second one, which shares it when stored within a partition |
| CacheRefinement.UnexpiredSegmentsBounded | include/libasyik/memcache.hpp:160-197 | in every history at every time at most segments + 1 segments are unexpired |
| CacheReplay.Perform | include/libasyik/memcache.hpp:59-157 | each method of the cache object makes the step of its operation |
| CacheReplay.Replay | include/libasyik/memcache.hpp:59-157 | a new cache object answers every history like the flat map |
| TokenBucket.AcceptedBound | include/libasyik/rate_limit.hpp:93-100 | the guard, with its wrapping 32-bit product, implies max_bucket <= 100 * rate |
| TokenBucket.GuardExactly | include/libasyik/rate_limit.hpp:93-100 | for a rate the guard is max_bucket <= 100 * rate on all 32-bit buckets if and only if the product fits 32 bits |
| TokenBucket.GuardWraps | include/libasyik/rate_limit.hpp:93-100 | a limit within the bound that the guard refuses |
| TokenBucket.RefillFacts | include/libasyik/rate_limit.hpp:65-83 | a refill never passes now, leaves less than a token of time, creates no credit and loses less than a millisecond unless the bucket is full |
| TokenBucket.IdleBucketIsFull | include/libasyik/rate_limit.hpp:65-74 | after 100 s of idling an accepted bucket is full |
| TokenBucket.WordsExact | include/libasyik/rate_limit.hpp:56-83 | below a distance of 2^32 the words compute the intended refill and nothing overflows |
| TokenBucket.WrapIsExact | include/libasyik/rate_limit.hpp:54-83 | the words count right if and only if the distance is below 2^32 or its low 32 bits already fill the bucket |
| RateLimit.Limiter.Checkpoint | include/libasyik/rate_limit.hpp:22-38 | grants the smaller of the request and the refilled count and stores the rest with the advanced stamp |
| RateLimit.Limiter.GetRemaining | include/libasyik/rate_limit.hpp:42-47 | returns the refilled count and stores nothing but a fresh lifetime |
| RateLimit.Limiter.Reset | include/libasyik/rate_limit.hpp:40 | forgets every key |
| RateLimit.Limiter.GetRemainingInt | include/libasyik/rate_limit.hpp:50-90 | the refill in words, and a full bucket for a missing key |
| RateLimit.MakeRateLimitMemory | include/libasyik/rate_limit.hpp:92-149 | fails exactly when max_bucket exceeds the 32-bit product rate * 100 |
| RateLimit.Serve | include/libasyik/rate_limit.hpp:17-141 | a new limiter object answers every key whose own polls are close, in every run, like the limiter that never forgets and never wraps |
| LimiterStack.LookupAgrees | include/libasyik/rate_limit.hpp:50-90 | live, forgotten or new, a key refills to its ideal quota |
| LimiterStack.ForgettingInvisible | include/libasyik/rate_limit.hpp:107-141 | over the forgetting cache every run has the grants and counts of a limiter that never forgets |
| LimiterStack.WraparoundHarmless | include/libasyik/rate_limit.hpp:50-90 | in 32-bit arithmetic every checkpoint and poll of a key has the ideal result while the key's own polls come within 2^32 - 107250 ms of its last checkpoint, whatever happens to other keys |
| LimiterStack.CheckpointRunsNeverWrap | include/libasyik/rate_limit.hpp:22-38 | in particular for runs of checkpoints of any length |
| LimiterStack.PollingExact | include/libasyik/rate_limit.hpp:42-90 | in the run of a new limiter, behind any beginning with close polls of the key and then anything but checkpoints of it, a poll counts right if and only if the key was forgotten, or its stamp is less than 2^32 old, or the wrapped age fills the bucket |
| LimiterStack.GrantAfterPollsExact | include/libasyik/rate_limit.hpp:22-90 | the key's next checkpoint grants what it should if and only if a poll would count right or it asks for no more than the wrapped count |
| LimiterStack.PollingWraps | include/libasyik/rate_limit.hpp:42-90 | polled every 100 s, a full bucket reads as empty after 2^32 ms |
| RateBounds.SettledFacts | include/libasyik/rate_limit.hpp:60-87 | wrapping and forgetting only lose credit, and leave at most a full bucket and less than a token of time |
| RateBounds.GrantIsPaid | include/libasyik/rate_limit.hpp:22-38 | every grant of the 32-bit stack is paid out of its key's credit, token for token |
| RateBounds.StepIsCharged | include/libasyik/rate_limit.hpp:22-90 | every operation keeps the key's account behind what the cache holds of it |
| RateBounds.RateBound | include/libasyik/rate_limit.hpp:22-90 | in any window of D ms whose checkpoints of the key no reset divides it is granted at most max_bucket + floor((rate*D + 999)/1000) |
| RateBounds.RateBoundFromFirstUse | include/libasyik/rate_limit.hpp:22-90 | at most max_bucket + floor(rate*D/1000) from the key's first use on |
| RateBounds.RateBoundForPositivePoints | include/libasyik/rate_limit.hpp:22-90 | the same in any window if no checkpoint of the key asks for zero tokens |
| RateBounds.TightExactly | include/libasyik/rate_limit.hpp:22-90 | for an accepted limit that bound holds in all runs and windows if and only if the bucket is empty or the rate is at least 1000 |
| RateBounds.ZeroPointBuysAToken | include/libasyik/rate_limit.hpp:69-82 | below that rate, after a zero-token checkpoint, a whole bucket and one more token are granted before the time of one token has passed |
| RateLoss.AccountIsIdeal | include/libasyik/rate_limit.hpp:50-90 | while a key's bucket does not fill up, its account in the 32-bit stack and its grants are those of the limiter that never forgets or wraps, whatever the polls |
| RateLoss.BoundedLoss | include/libasyik/rate_limit.hpp:22-90 | in any run, from a key's first use on or its first after a reset, whatever came before and happens to other keys, granted tokens and the credit of the stored quota never exceed a full bucket plus the elapsed time, and until the bucket fills fall short of it by at most rate - 1 thousandths per refill |
| RoutePattern.SearchFindsGreediest | include/libasyik/route_table.hpp:139-155 | the backtracking engine finds captures exactly when the pattern accepts, and the greediest ones |
| RoutePattern.CapturesAreValid | src/http_common.cpp:34-43 | one capture per group: digits, or no slash, question mark or space, and so on |
| RoutePattern.FillRebuilds | src/http_common.cpp:34-43 | captures put back, an optional slash and the query give the target |
| RoutePattern.AcceptsExactly | src/http_common.cpp:34-43 | a pattern accepts a target with these captures if and only if they are digits, a segment without slash or query, or a path without query or fragment, as the groups say, and spell the target with a query after an optional slash |
| RouteSpec.CompileIsTokenisation | src/http_common.cpp:26-43 | the pattern spells the trimmed spec, its groups stand for tags, and no tag is left among its literals |
| RouteText.CompileOfWritten | src/http_common.cpp:26-43 | any sequence of texts and of the tags int, string and path, with any spaces in the brackets, compiles to the characters of the texts and the groups of those kinds, a final slash dropped |
| RouteSpec.CaptureRoundTrip | src/http_common.cpp:26-43 | what a route captures, put back into its pattern, rebuilds the target; int captures are digits, string captures one path segment, path captures free of query and fragment |
| RouteSpec.ExtractStaticPrefix | include/libasyik/route_table.hpp:26-43 | the longest part of a tagged spec before its first tag bracket; a static spec without its final slash |
| RouteSpec.PrefixNeverRejects | include/libasyik/route_table.hpp:26-43 | every target a tagged route accepts starts with its static prefix |
| RouteSpec.ExactTierIsPattern | include/libasyik/route_table.hpp:52-66 | for a static path other than the root and those that end in a doubled slash the pattern accepts a target exactly when the normalised paths agree and the query is valid |
| RouteSpec.HashMissesOnlyDoubleSlash | include/libasyik/route_table.hpp:87-94 | for every static spec the hash finds every target the pattern accepts, unless the spec is a path longer than two slashes that ends in two slashes, and then it does not |
| RouteSpec.HashIsPatternExactly | include/libasyik/route_table.hpp:52-66 | for every static spec, hash with a valid query and pattern agree on all targets if and only if the spec has no leading slash, or is neither the root, nor has a query, nor ends in a doubled slash |
| RouteSpec.HashIsRightExactly | include/libasyik/route_table.hpp:125-137 | for every static spec and target, hash and pattern agree if and only if a fitting key comes with a valid query and is not the doubled root, and a missed key is not the doubled slash of the spec |
| RouteSpec.RootHashesMore | include/libasyik/route_table.hpp:52-66 | the root route answers the target of two slashes, which its pattern rejects |
| RouteSpec.QuerySpecHashesMore | include/libasyik/route_table.hpp:52-66 | a static spec with a query answers its bare path, which its pattern rejects |
| RouteSpec.BadQueryHashesMore | include/libasyik/route_table.hpp:52-66 | a static route answers a target with two question marks, which its pattern rejects |
| RouteTable.IEquals | include/libasyik/route_table.hpp:130 | methods are compared letter by letter, either case |
| RouteTable.TierOrder | include/libasyik/route_table.hpp:84-113 | a tier holds its front inserts, newest first, then its back inserts in order |
| RouteTable.OrderIsByTier | include/libasyik/route_table.hpp:115-171 | the order of the search has every registration once, static specs before tagged ones before raw patterns |
| RouteTable.ScanFindsFirst | include/libasyik/route_table.hpp:115-171 | the scan returns the first registration that answers, and nothing exactly when none does |
| RouteTable.ScanMeans | include/libasyik/route_table.hpp:125-168 | the scan returns the first route whose method and path, pattern or engine fit; the arguments are the path, or the whole target followed by the greediest captures and the query |
| RouteTable.BucketIsScan | include/libasyik/route_table.hpp:125-137 | looking into one hash bucket is scanning the whole exact tier |
| RouteTable.PrefixTestIsHarmless | include/libasyik/route_table.hpp:139-155 | a route made from its spec answers as without the prefix test |
| RouteTable.HashAnswersExactly | include/libasyik/route_table.hpp:125-137 | a static route answers as its pattern would exactly on the targets the hash is right about |
| RouteTable.ScanIsPatternScan | include/libasyik/route_table.hpp:115-171 | for routes made from their specs, on a target the hash is right about, the scan returns the first route whose method fits and whose pattern accepts, with its captures |
| RouteTable.Table.AddRoute | include/libasyik/route_table.hpp:84-104 | the containers hold the registrations, the new one at its place, for any spec and route |
| RouteTable.Table.AddRegexRoute | include/libasyik/route_table.hpp:106-113 | the same for a raw regex route |
| RouteTable.Table.Find | include/libasyik/route_table.hpp:115-171 | the first route that answers in the order of the tiers, with its arguments: the path, or the whole target, the greediest captures and the query; the result of a scan by pattern alone where the hash is right about the target |
| RouteTable.Table.FindExact | include/libasyik/route_table.hpp:125-137 | the scan's result on the exact tier |
| RouteTable.Table.FindPrefix | include/libasyik/route_table.hpp:139-155 | the scan's result on the prefix tier |
| RouteTable.Table.FindFallback | include/libasyik/route_table.hpp:157-168 | the scan's result on the fallback tier |
| ServiceProtocol.StepKeepsInv | src/service.cpp:97-230 | every step of every participant keeps the counters exact, every task in one place and the shutdown order |
| ServiceProtocol.TaskCountIsExact | include/libasyik/service.hpp:109-131 | execute_task_count is the number of tasks submitted and not finished |
| ServiceProtocol.FiberCountIsExact | src/service.cpp:97-129 | active_fiber_count is the number of counted fibers that have not ended; at zero no spawned task's captures are alive |
| ServiceProtocol.LoopLeftExactlyWhenDone | src/service.cpp:136-155 | at its look at the counter run(true) leaves its loop if and only if every submitted task has finished |
| ServiceProtocol.NoFiberAfterJoin | src/service.cpp:169-194 | after the dispatcher was joined active_fiber_count never rises |
| ServiceProtocol.ReturnIsClean | src/service.cpp:178-230 | run returns with no fiber left or with both deadlines passed, and with an empty channel unless stopped |
| ServiceProtocol.FibersGetASecond | src/service.cpp:178-220 | run gives up on a live fiber only more than 1000 ms after it joined the dispatcher |
| ServiceProgress.DispatcherExits | src/service.cpp:97-176 | once the channel is closed the dispatcher exits within four times the queue's length plus 4 of its own steps, whatever the others do, and always has one to make |
| ServiceProgress.WaitEnds | src/service.cpp:182-220 | a wait whose deadline has passed is left within three steps of run, whatever the others do |
| ServiceProgress.RunReturns | src/service.cpp:178-230 | three steps past the graceful and three past the forced deadline run has returned |
| ServiceProgress.RunNeverStuck | src/service.cpp:178-230 | after the join run always has a step to make |
| ServiceProgress.ChannelIsFifo | src/service.cpp:97-100 | over every run what was pushed is what was taken followed by what still waits, in order |
| ServiceProgress.StopEndsDispatch | src/service.cpp:99-100 | once a stop task has set the flag at most one more task is started, and only if the dispatcher was already waiting for one |
| ServiceProgress.StopEndsLoop | src/service.cpp:136-155 | once the flag is set run leaves its loop within two of its own steps, whatever the others do |
| ServiceProgress.OnlyStopEndsRun | src/service.cpp:136-155 | run(false) leaves its loop only after a task submitted by stop has run |
| ServiceProgress.StopTakesEffect | include/libasyik/service.hpp:169-175 | once a task submitted by stop has finished the flag is set |
| ServiceProgress.CompletionEndsLoop | src/service.cpp:136-155 | once every submitted task has finished and none is submitted any more, run(true) leaves its loop within two steps, whatever the others do |
| ServiceProgress.JoinHappens | src/service.cpp:157-176 | out of its loop and with the dispatcher gone run has joined it within two steps, whatever the others do |
| ServiceProgress.PromptReturn | src/service.cpp:178-230 | with no fiber left after the join run returns within four steps, without waiting for a deadline |
| ServiceProgress.CanReturn | src/service.cpp:178-230 | from every state after the join, time and steps of run alone lead to its return |
| ServiceProgress.FlushBeforeReturn | src/service.cpp:220-226 | run never returns without its final flush |
| ServiceProgress.WaitingTaskIsTaken | src/service.cpp:97-129 | a task at place i of the channel is taken within 4 * i + 4 steps of the dispatcher, whatever the others do, unless the service is stopped |
| ServiceProgress.TaskOrder | src/service.cpp:97-129 | in every interleaving a task is submitted, pushed, finishes, destroys its captures and only then ends, each once and in this order |
| ServiceProtocol.PushedTasksEnd | src/service.cpp:157-230 | without a stop every task that reached the channel has ended by a clean return |
| SqlPool.StepKeepsInv | include/libasyik/sql.hpp:60-138 | every step keeps the connections' places, their number, the mutex discipline and the pass's balance |
| SqlPool.ConnectionsConserved | include/libasyik/sql.hpp:73-117 | pooled, borrowed and checked connections always add up to num_pool |
| SqlPool.NeverShared | src/sql.cpp:61-79 | no connection is with two clients, or with a client and in the pool or under check |
| SqlPool.ListChangesUnderLock | include/libasyik/sql.hpp:83-109 | the list is touched only by the holder of the mutex |
| SqlPool.PoolIsFifo | include/libasyik/sql.hpp:83-109 | over every run connections leave the pool in the order in which they came back |
| SqlPool.PassPutsBackWhatItTook | include/libasyik/sql.hpp:84-110 | a health pass ends having put back as many connections as it took |
| SqlPool.PassEnds | include/libasyik/sql.hpp:86-110 | from any reachable state inside a health pass, within 5 * n + 5 steps of the checker's own for n connections left, the pass has ended, whatever the clients do |
| SqlPool.PassNeverStuck | include/libasyik/sql.hpp:86-110 | inside a pass the checker has a step whenever no client holds the mutex |
| SqlPool.HolderCanStep | src/sql.cpp:65-74 | whoever holds the mutex can make a step |
| SqlSessions.ClientOrder | src/sql.cpp:61-79 | in every interleaving a client looks until the pool is not empty, takes a connection, uses it, gives it back and only then is done |
| SqlSessions.ClientGetsConnection | src/sql.cpp:65-74 | with the mutex free and a connection in the pool three steps of its own give a client the head of the list |
| SqlSessions.ClientReturnsConnection | include/libasyik/sql.hpp:127-138 | with the mutex free three steps give a connection back to the end of the list |
| SqlSessions.ClientNeverStuck | src/sql.cpp:61-79 | a client that is not done waits for nothing but the mutex |
| SqlSessions.PassTakesAll | include/libasyik/sql.hpp:80-86 | with the mutex free three steps of the checker take the whole list |
| SqlSessions.PassesAreSeparate | include/libasyik/sql.hpp:79-111 | the first step of the checker after a pass starts a new one |
| SqlSessions.TestedBeforePutBack | include/libasyik/sql.hpp:87-109 | what the checker puts back is the connection it took, if that passed its test or could not be renewed, and otherwise the new one |
| Multipart.FindMultipartBoundary | include/libasyik/http.hpp:98-123 | Found leaves exactly the data after the leftmost boundary line of the whole stream; the stream runs out only if neither line occurs; nothing is read while a line is in the buffer |
| Multipart.CutIndependence | include/libasyik/http.hpp:104-122 | the outcome is the same for all ways to cut the stream if and only if no unbuffered closing line ends before the first boundary line within one read |
| StaticRange.ParseRange | src/http_static.cpp:430-459 | an accepted range satisfies 0 <= start <= end < size |
| StaticRange.ParsedExactly | src/http_static.cpp:430-459 | exactly the headers bytes=first-last whose texts name a slice of the file are accepted; every other header gets the whole file |
| StaticRange.SuffixRange | src/http_static.cpp:442-449 | bytes=-n gives the last min(n, size) bytes |
| StaticRange.ExplicitRange | src/http_static.cpp:450-455 | bytes=a-b is honoured exactly when a <= b < size |
| StaticRange.OpenRange | src/http_static.cpp:450-455 | bytes=a- runs to the end of the file |
| StaticRange.StollExactly | src/http_static.cpp:444-452 | stoll accepts exactly the texts that begin with white space, a sign and digits of a number in 64-bit range, and returns that number |
| StaticRange.StollOfDecimal | src/http_static.cpp:444-452 | stoll reads back what to_string wrote, after any space and a sign, whatever non-digit follows |
| StaticRange.ContentRangeIsExact | src/http_static.cpp:473-476 | a Content-Range value determines start, end and size |
| StaticRange.ContentRangeReads | src/http_static.cpp:473-476 | a reader of the Content-Range value finds start before the dash, end before the slash and size after it |
| StaticRange.ReadRange | src/http_static.cpp:227-238 | success fills the buffer with exactly the requested slice under any short reads, and positive reads of a long enough file succeed |
| StaticRange.Respond | src/http_static.cpp:429-508 | 206 carries the accepted slice and its bounds, 200 the whole file, 500 only after a failed read |
| Allocators.RunsAreSafe | include/libasyik/object_pool.hpp:28-49 | in every run owned blocks are disjoint and each is in use or on the free list, once |
| Allocators.NothingLeaks | include/libasyik/object_pool.hpp:28-49 | in every run what the pool owns is in use or on its free list, and the numbers add up |
| Allocators.OwnsThePeak | include/libasyik/object_pool.hpp:28-49 | a pool asked for small blocks only owns exactly as many as were in use at the peak |
| Allocators.LastFreedIsReused | include/libasyik/object_pool.hpp:28-49 | the small block freed last is handed out first; a large one is not kept |
| Allocators.SafeSizes | include/libasyik/object_pool.hpp:28-49 | every block is large enough in every run if and only if at most one of the sizes asked fits the block size |
| Allocators.BlockPool.Allocate | include/libasyik/object_pool.hpp:28-39 | hands out a block that is not in use |
| Allocators.BlockPool.Deallocate | include/libasyik/object_pool.hpp:41-49 | puts a small block on the free list and gives a large one back |
| Allocators.RoundUpIsLeast | include/libasyik/pooled_guarded_stack.hpp:58-60 | the stack size is the least page multiple that covers the request |
| Allocators.GuardedStacks.constructor | include/libasyik/pooled_guarded_stack.hpp:55-63 | stack and mapping sizes |
| Allocators.GuardedStacks.Allocate | include/libasyik/pooled_guarded_stack.hpp:72-103 | the usable range lies above the guard page, in a mapping no other stack in use overlaps |
| Allocators.GuardedStacks.Deallocate | include/libasyik/pooled_guarded_stack.hpp:85-91 | the base recovered from sp is the one allocated, and it is on the free list |

## Left out

- The limiter's separate clock readings: one reading serves a whole limiter operation, its own and the cache's; a reset that runs between the two halves of a concurrent checkpoint is not modelled.
- Locks of the cache and the limiter: each operation is one step, as the lock makes it; references that `get` and `at` return from the single-thread cache are modelled as values, in-place changes by `visit`.
- The 64-bit millisecond clock never overflows here, and negative template arguments of the cache are not modelled.
- `prune_periodically`: when the background fiber wakes up; a prune may happen between any two operations instead.
- `std::regex` itself: compiled patterns are token lists with a backtracking engine, and raw regex routes are arbitrary functions.
- CompileIsTokenisation: not for specs with a backslash, because the escaping leaves it in place, where it starts an escape sequence of `std::regex` (a class, a back reference, or a literal that frees the next metacharacter), and not for the empty spec, whose last character the source reads.
- CaptureRoundTrip: as CompileIsTokenisation.
- PrefixNeverRejects: as CompileIsTokenisation; such a spec's pattern is an arbitrary function to `Table.Find`, which keeps the prefix test for it.
- HashMissesOnlyDoubleSlash: as CompileIsTokenisation.
- HashIsPatternExactly: as CompileIsTokenisation.
- HashIsRightExactly: as CompileIsTokenisation.
- Case folding of methods is ASCII; the logging of suspicious specs is omitted.
- The channel's capacity and the 32-bit width of the service's counters; the io_context; what `request_stop` does to fibers; the worker pool behind `async` and its statistics; exceptions that escape a task.
- The SQL pool's destruction, an interrupted sleep in `get_session`, LISTEN/NOTIFY, queries and transactions.
- The buffer's maximum size in the multipart search, and its callers.
- Path resolution, conditional requests, MIME types and the other response headers of the static file handler; failures of open and lseek count as reads that return nothing.
- Destructors of the allocators, alignment, overflow of sizes, and a failing mprotect.
- HTTP connections, WebSockets, TLS, digest authentication, fiber futures and the scheduler: glue over Boost, OpenSSL and libpq.
