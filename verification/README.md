# Verified model of the account service's caches, worker pool and tokens

The service keeps customers in one database and serves them from many nodes. Every node has a private local
cache, all share one Redis, a read coalesces under a leased mutex, an update invalidates by deleting the Redis
entry and publishing its key, and each node's cleaner turns published keys into local deletes on a worker pool.
Login, sign-up and refresh mint tokens on top of the same cached repository. This project models those parts as
one closed system and proves what they promise, in two forms that meet.

**The interleaved form.** `CacheProtocol` is a labelled state machine in which every Redis, database,
local-cache, lock and publish call of any number of requests on any number of nodes is one atomic step. Any call
may fail, entries may be dropped at any time, leases may lapse, and a request may stop for ever between two steps
(so a failed call of an update is an update that goes no further). A step stamp numbers database reads, writes
and deletes; the stamps and the history of the database are read by the theorems, never by a guard.
`PoolProtocol` does the same for any number of concurrent `Start`, `Stop` and `Do` calls and the workers.
Theorems about these machines quantify over every run.

**The sequential form.** `Stores`, `Repositories`, `WorkerPool`, `Cluster`, `Proxies`, `AccountProxy`,
`AuthProxy` and `AuthService` are the program's objects, with their fields updated in place, loops where the
program has loops, and calls that may fail and may have been applied all the same. Bodies run without
interleaving; messages and tasks wait for a node's loop and workers to take their turns. Cache keys are the
strings the program builds, mutexes live in the same Redis keyspace as entries, and the proofs need the keys to
be separate.

The two forms share `ReadPlan` and `UpdatePlan`: the sequential getters and updates are proved to follow them
when nothing fails, and so is every uninterrupted faultless read (`SoloRead`) and update (`SoloUpdate`) of the
interleaved machine. `Expiry` holds the arithmetic of Redis expiries for both.

Hypotheses, stated where they are used: Redis is one linearizable store; a value read back from a cache is the
value stored (JSON round trip; the program ignores a Redis decoding error, infra/cache/redis.go:128, and here
none occurs); a mutex lease lasts 5 seconds and redsync tries 32 times; a local entry may be evicted at any time and lives at most a
configured time (for bigcache the configured expiry plus its five-minute clean window); go-redis sends no expiry
for a duration that is not positive; a password check is a
deterministic function of password and hash; only tokens signed with the service's secret verify; gorm's struct
update skips zero fields and its `default:true` tag stores a false `Active` as true.

`dafny verify dfyconfig.toml` checks the whole project.

## Model

| member | source | states |
|---|---|---|
| Keys.Join | pkg/string.go:6-12 | the loop over the builder returns the concatenation of all arguments in order |
| Keys.BuildKey | repo/proxy/account.go:42 | the key the proxies join is `cuspersonalinfo:`, `cusshippinginfo:` or `cuscheck:` with the id in decimal, or `cuscred:` with the email |
| Keys.BuildMutexName | repo/proxy/account.go:57 | the mutex name is `mutex:` followed by the key |
| Keys.DecimalRoundTrip | repo/proxy/account.go:42 | decimal rendering of an id can be read back, so it is injective |
| Keys.KeysAreSeparate | repo/proxy/auth.go:55-94 | over all ids and emails, distinct keys and distinct mutexes have distinct names and no mutex name is a key |
| Keys.KeyspaceFrame | repo/proxy/account.go:57 | a write or removal under one key, or of any mutex, leaves every other entry as it was |
| Customers.ApplyKeeps | repo/account.go:72-94 | a statement keeps id, email and phone unique, loses no customer, and moves no active flag or hash |
| Customers.AllowedExactly | infra/db/model/customer.go:4-15 | the database accepts an update if and only if email and phone number are unique after it, and an insert if and only if moreover the id is new |
| Customers.OnlyItsOwnUpdate | repo/account.go:72-94 | an existing account answer changes only by an update of that kind for that id |
| Customers.HistoriesKeep | infra/db/model/customer.go:4-15 | uniqueness and every customer's active flag and hash survive any history of successful statements |
| Customers.HistoriesFold | repo/account.go:72-94 | after any history of successful statements a customer is there exactly when there at the start or inserted on the way, and each field holds the last non-empty value written to it since, else the value it began with |
| Customers.KindsAreIndependent | repo/account.go:72-94 | any number of personal updates leaves every shipping answer alone, and the reverse |
| Customers.CredAnswer | repo/auth.go:85-95 | credentials are found exactly when somebody has the email, and are that one customer's |
| Base.SecondsExact | service/auth/impl.go:143-149 | the int64 duration of E seconds is exact if and only if E is at most 9223372036 either way |
| Expiry.ExpiryInRangeExactly | infra/cache/redis.go:209-211 | every Set asks for the configured seconds plus 0 to 9 if and only if the setting E is at least 1 and E + 9 seconds fit a Duration |
| Expiry.AlwaysExpiresExactly | infra/cache/redis.go:139 | for settings up to 9223372036 either way, every Set asks for an expiry if and only if E is at least 1 and E + 9 seconds fit a Duration |
| Expiry.LongestIsLongest | infra/cache/redis.go:209-211 | the longest time to live a Set may ask for is asked for by some jitter, and none asks for more |
| Expiry.SomeSettingsNeverExpire | infra/cache/redis.go:139 | a setting of zero, and the first one whose product wraps, can store an entry without any expiry |
| Tokens.MintedLifetime | service/auth/impl.go:141-172 | a token for E >= 1 seconds is live through E - 1 seconds after minting if and only if E <= 9223372036, and then dead from E seconds on |
| Tokens.PairAtTheGates | service/auth/impl.go:43-68 | before expiry each gate accepts its own kind as the customer minted for and refuses the other; after expiry both report expiry for both kinds |
| Tokens.GatesExactly | service/auth/impl.go:107-124 | exactly which presented strings each gate accepts and which it reports as expired, forged and malformed ones included; everything else is invalid |
| Provenance.Flow | repo/proxy/account.go:44-75 | whatever Redis, a local cache or a request holds after a step was held somewhere before it or comes from a database query in that very step |
| Provenance.OneWay | repo/proxy/account.go:49-74 | values flow one way: new in Redis only from a query's Set, new in a local cache only from a Redis hit; nothing is written back on a local hit |
| Provenance.NoInventedValues | repo/proxy/auth.go:53-136 | in every run every value anywhere was the database's answer for that very key at its stamped step, negative answers included |
| Provenance.NotFoundIsTrue | repo/proxy/account.go:69-72 | whoever is about to be told "not found" asked the database itself, and it had no answer for that key at that very step |
| Provenance.OrderlyAt | repo/auth.go:60-82 | in every run time is monotone, the table stays unique, and no customer, active flag or hash is ever lost or changed |
| Staleness.WritersOrdered | repo/proxy/account.go:115-129 | in every run an update writes before it deletes and deletes before anything is delivered or handled |
| Staleness.RedisStalenessExact | repo/proxy/account.go:69-74 | in every run Redis comes to hold a value a finished Delete should have removed if and only if some reader's span from database read to Set encloses an update's write and Delete |
| Staleness.LocalStalenessExact | repo/proxy/account.go:49-53 | when Redis stays free of such values, a node comes to hold a value older than an invalidation it has handled if and only if some span from Redis hit to local Set encloses that update's Delete and handling |
| Staleness.OutOfDateHasWriter | repo/proxy/account.go:117-120 | a genuine account value that is no longer the database's answer has a newer update of its key to blame |
| Staleness.StaleRedisHasUpdateInFlight | repo/proxy/account.go:117-124 | without an enclosing fill, a Redis entry that differs from the database has newer updates, all of them short of their Delete |
| Staleness.StaleLocalAwaitsInvalidation | infra/cache/cleaner.go:47-57 | without either enclosure, a local entry that differs from the database has newer updates, and the node has handled none of their invalidations |
| Staleness.SettledCachesAreRight | infra/cache/cleaner.go:36-59 | once every update of an account key is deleted, and handled on a node, Redis and that node hold the database's own answer unless an enclosing fill or copy happened |
| StaleWitness.EnclosureLeavesRedisWrong | repo/proxy/account.go:69-74 | a concrete run in which an enclosing fill, its reader holding the mutex since it took it and within the lease, leaves Redis wrong after the only update is written, deleted, published and handled |
| StaleWitness.EnclosureLeavesLocalWrong | repo/proxy/account.go:49-53 | a concrete run without enclosing fills in which an enclosing copy leaves a local cache wrong after its only invalidation was handled |
| BoundedAge.ReturnedValuesAreYoung | infra/cache/redis.go:209-211 | whatever the interleaving, when entries always expire a returned value was the database's answer less than R + L + 3 d ago, R being the longest life in Redis, which is E + 9 s for every setting that fits |
| AgeWitness.AgeBoundIsAttained | repo/proxy/account.go:44-75 | for every configuration whose entries always expire and every delay a run returns a value whose age is that bound less one nanosecond |
| AgeWitness.AgeIsBoundedExactly | infra/cache/redis.go:139 | ages have a bound if and only if every expiry the setting may give is positive; otherwise values of every age are returned |
| Coalescing.MutualExclusion | infra/cache/redis.go:153-155 | when critical sections end within their leases, at most one request of all nodes is inside the section of a key |
| Coalescing.DatabaseReadsAreCoalesced | repo/proxy/account.go:56-75 | then the database is read for a key at most once plus once per removal of its Redis entry, failed Set, failed recheck and failed read |
| SoloRead.UninterruptedReadFollowsPlan | repo/proxy/account.go:40-76 | every faultless read that runs to its end uninterrupted, from whichever call it stood at, returns and leaves in both caches exactly what the read plan says of what it found, its mutex released |
| SoloRead.ReadGoesThroughExactly | repo/proxy/account.go:40-76 | a faultless read can run to its end uninterrupted, from whichever call it stands at, if and only if the caches it will still look at have a live entry or none and the mutex, if it will need it, is free |
| SoloRead.AnyCallMayFail | repo/proxy/account.go:44-75 | every call of a read may fail; the read then goes on to the next source, gives up only at the mutex or the database, and returns the value when only a Set failed |
| SoloRead.NoOtherOutcome | repo/proxy/account.go:44-75 | a call succeeds or fails, with no third outcome, and brings the read nearer to its end |
| SoloUpdate.UninterruptedUpdateFollowsPlan | repo/proxy/account.go:115-129 | the three calls of an uninterrupted update are write, Delete, Publish in that order, and leave exactly what the shared update plan says |
| SoloUpdate.UpdateGoesThroughExactly | repo/proxy/account.go:115-129 | an update can go through if and only if its statement leaves email and phone number unique |
| Environment.EntriesMayGo | infra/cache/redis.go:139 | any entry of Redis or of a local cache may be lost at any time, and nothing else moves then |
| Environment.LeasesRunOutExactly | infra/cache/redis.go:153-155 | a mutex is lost to its lease from 5 seconds after it was taken and not before |
| Environment.InvalidationsAreHandledExactly | infra/cache/cleaner.go:47-57 | every invalidation delivered to a node can be handled there, once, and removes that node's entry alone |
| Environment.UpdatesCanGoOn | repo/proxy/account.go:122-128 | an update that has written the table can make its Delete, and then a Publish reaching any nodes |
| Environment.RequestsCanStart | repo/proxy/account.go:40-44 | a request of any kind can always start, a refresh with any live refresh token of ours |
| Environment.SignUpsGoThroughExactly | service/auth/impl.go:71-85 | a sign-up goes through if and only if its id, email and phone number are new, and its pair can then be minted |
| Environment.RequestsReturnOnce | service/auth/impl.go:141-156 | a request returns exactly when its last call is done, and once, so it mints at most one pair, and so does a sign-up |
| Environment.RedisEntriesStay | repo/proxy/account.go:122-124 | an entry leaves Redis only when lost, deleted by an update of its key, or replaced by a fill |
| Environment.LocalEntriesStay | infra/cache/cleaner.go:53-56 | an entry leaves a local cache only when lost, invalidated there, or replaced by a copy |
| AuthAnswers.PositiveAnswersStand | repo/proxy/auth.go:53-136 | under any interleaving a positive check or credentials anywhere in the system is true of the database now |
| AuthAnswers.AnswersFitTheirKeys | repo/proxy/auth.go:30-42 | no request is ever handed another family's kind of value |
| AuthAnswers.LoginIsSound | service/auth/impl.go:88-104 | whoever a login mints for exists and is active now, the password matches the current hash, and the email was that customer's at some moment |
| AuthAnswers.LoginDecidesByTable | service/auth/impl.go:88-104 | a finished login decides by the table as it was when its answer was read: it mints exactly for the active customer with that email whose hash matches, and names which of the three was not so otherwise |
| AuthAnswers.RefreshDecidesByTable | service/auth/impl.go:126-138 | a finished refresh likewise mints, or says "not found" or "inactive", exactly as that table has it |
| ReplicaReads.ReplicasMayLag | infra/cache/redis.go:95-96 | with replicas that lag as they like, a look at Redis may be answered with any entry Redis held for that key at any earlier moment |
| ReplicaReads.NoInventedValuesFromReplicas | infra/cache/redis.go:95-96 | when a look at Redis may be answered by a replica with any entry Redis ever held, every value anywhere still was the database's answer for that very key at its stamped step |
| ReplicaReads.NotFoundIsTrueWithReplicas | infra/cache/redis.go:95-96 | with such replicas "not found" is still only said when the database had no answer at that step |
| ReplicaReads.PositiveAnswersStandWithReplicas | infra/cache/redis.go:95-96 | with such replicas positive checks and credentials anywhere are still true of the database now |
| ReplicaReads.LoginIsSoundWithReplicas | service/auth/impl.go:88-104 | with such replicas a login still mints only for an active customer with a matching hash who had the email |
| AuthAnswers.TokensNameActiveCustomers | service/auth/impl.go:71-85 | in every run every token names a customer in the database and active now, and every refresh chain keeps its root's customer |
| AuthAnswers.WhoIsAuthenticatedIsActive | service/auth/impl.go:43-68 | when only minted tokens carry the signature, whoever Auth accepts a string for is in the database and active at that moment |
| AuthAnswers.MintedPairsAreHonoured | service/auth/impl.go:141-172 | at every later state of the run a minted pair is accepted as its customer until a second before its expiries, reported as expired from them on, and the customer is active |
| AuthAnswers.TokensAreMintedExactly | service/auth/impl.go:141-156 | tokens appear exactly when a pair is minted, access token first, and a refreshed pair remembers the token it came from |
| AuthAnswers.ChecksArePositive | repo/proxy/auth.go:80-89 | when only RefreshToken checks customers, no negative check is ever stored or in hand anywhere |
| AuthAnswers.FailuresAreCalls | repo/proxy/auth.go:68-84 | a request that fails does so after its own call for the mutex, or to the database, failed; failing Redis and local calls are survived |
| AuthAnswers.RefreshFailsOnlyByInfrastructure | service/auth/impl.go:107-139 | then RefreshToken on a verifying unexpired refresh token mints for its customer or fails after its own mutex or database call failed |
| PoolProtocol.Normalize | pkg/workerpool/pool.go:62-66 | the pool always has at least one worker, the requested number when that is positive and the number of CPUs otherwise |
| PoolRuns.LifeCycle | pkg/workerpool/pool.go:99-128 | under any concurrent calls the state moves only 0-1, 1-2 or 0-2, one Start spawns, one Stop closes, workers stay within N, unfinished accepted tasks within 2N, and after Start the wait group counts the workers not yet exited |
| PoolRuns.CloseIsClean | pkg/workerpool/pool.go:119-126 | close never meets a closed queue or a parked sender, and never panics |
| PoolRuns.RiskExactly | pkg/workerpool/pool.go:137-142 | in every reachable state, the calls that may panic with their next operation are exactly the Do calls whose select is still to be evaluated while the queue is closed |
| PoolRuns.SafeOnceSelected | pkg/workerpool/pool.go:137-142 | a Do whose select has been evaluated is never at risk again, parked or returned |
| PoolRuns.NoLateSelectNoPanic | pkg/workerpool/pool.go:119-142 | a run in which no select is evaluated after close never panics |
| PoolRuns.WaitOverMeansDrained | pkg/workerpool/pool.go:111-128 | when the wait group is empty after Start returned, the queue is empty and all workers have exited |
| PoolRuns.StopDrainsExactlyOnce | pkg/workerpool/pool.go:118-142 | when the winning Stop returns, every sent task ran and sent one result, in the order accepted; a dropped one sent none, and the context was cancelled in every state of the run in which it is dropped |
| PoolRuns.ResultNeverBlocks | pkg/workerpool/pool.go:30-48 | with each task submitted once, no worker ever blocks on a task's capacity-1 result channel |
| PoolRuns.WorkIsBounded | pkg/workerpool/pool.go:111-116 | from close on, every worker step uses up a measure of queued tasks and live workers that nothing else increases |
| PoolRuns.StopIsNeverStuck | pkg/workerpool/pool.go:119-128 | in every state from close on either the wait group is empty or some worker can step |
| PoolRuns.ParkedIsNeverStuck | pkg/workerpool/pool.go:137-142 | before close, once Start has returned, a parked Do can go on or some worker can step |
| PoolSteps.AnybodyMayCall | pkg/workerpool/pool.go:99-135 | Start, Stop and Do can be called at any time by anyone, and begin at their first operation |
| PoolSteps.SelectExactly | pkg/workerpool/pool.go:137-142 | the select of Do may send exactly when there is room, drop exactly when the context is cancelled, park exactly when neither, and panic on a closed queue; it always can do one of them, with exactly that effect |
| PoolSteps.DoSendsWhileOpen | pkg/workerpool/pool.go:137-142 | while the pool is open and has room, a Do puts its task at the end of the queue, whatever is chosen |
| PoolSteps.ParkedGoesOnExactly | pkg/workerpool/pool.go:137-142 | a parked Do goes on exactly when there is room, and then sends; cancellation drops it |
| PoolSteps.CallsWaitExactly | pkg/workerpool/pool.go:99-142 | in every run the calls that cannot step are those returned, a Do parked on a full queue, and a Stop whose wait group is not empty |
| PoolSteps.WorkersWaitExactly | pkg/workerpool/pool.go:111-116 | the workers that cannot step are those gone, those with nothing to do, and those whose task's channel is full |
| PoolSteps.ChannelsHoldResults | pkg/workerpool/pool.go:47-53 | a task's channel holds its result exactly from the send to the read |
| PoolSteps.WholeRun | pkg/workerpool/pool.go:99-142 | a run in which a pool is started, a task is accepted, executed and finished, and Stop returns with the worker gone |
| PoolRuns.StopStopsExactly | pkg/workerpool/pool.go:120 | Stop leaves the pool unstopped if and only if a Start wins between its two compare-and-swaps and no other Stop makes its first attempt in the rest of that interval |
| PoolRuns.StopWaitsExactly | pkg/workerpool/pool.go:101-126 | Stop returns with every worker gone and none to come if and only if no Start stands between its compare-and-swap and wg.Add when the wait ends |
| PoolRuns.StopMayStopNothing | pkg/workerpool/pool.go:120 | a run in which Start slips between the two compare-and-swaps and Stop returns with the pool started and open |
| PoolRuns.StopMayNotWait | pkg/workerpool/pool.go:101-104 | a run in which Stop overtakes wg.Add and returns before the workers exist |
| PoolRuns.DoAfterStopMayPanic | pkg/workerpool/pool.go:137-142 | a run in which a Do after close panics |
| Stores.RedisCache.Get | infra/cache/redis.go:121-131 | returns what is stored, or nothing, or an error that is counted; the store is untouched |
| Stores.RedisCache.Set | infra/cache/redis.go:134-143 | stores the value under the key alone with a time to live that getRandomExpiration may give, or none where it gives none; a failed call may have done so |
| Stores.RangeInSeconds | infra/cache/redis.go:209-211 | for a setting E that fits, those times to live are the whole seconds from E to E + 9 |
| Stores.RedisCache.Delete | infra/cache/redis.go:146-151 | removes the key alone; a failed call may have done so |
| Stores.RedisCache.Publish | infra/cache/redis.go:201-207 | appends one message to the topic; a failed call may have done so |
| Stores.RedisCache.Lock | infra/cache/redis.go:153-155 | within its tries takes the mutex, with a 5 second lease, only when nobody holds it or the holder is gone, and always when it is free and no call fails; touches no other name |
| Stores.RedisCache.ExecPipeLine | infra/cache/redis.go:158-199 | without a fault a batch leaves what running its commands one by one leaves; it is refused before anything is sent exactly when some command cannot be sent, and the first such decides the error; a fault in Redis may lose some of them |
| Stores.RefusedExactly | infra/cache/redis.go:162-179 | a command is refused only when its operation is unknown or it is a SET whose value cannot be encoded |
| Stores.LastCommandWins | infra/cache/redis.go:161-181 | the last command of a batch on a key decides what is left there, with its expiry in range |
| Stores.UntouchedKeysKeep | infra/cache/redis.go:161-181 | keys a batch does not name keep what they had, whatever fails |
| Stores.LocalCache.Set | infra/cache/local.go:52-61 | stores under the key alone unless it fails |
| Stores.LocalCache.Delete | infra/cache/local.go:64-70 | removes the key alone, absent or not, unless it fails |
| Repositories.CustomerRepository.GetCustomerPersonalInfo | repo/account.go:46-56 | the row's personal columns, "not found" exactly for a missing id, or a database error |
| Repositories.CustomerRepository.GetCustomerShippingInfo | repo/account.go:59-69 | likewise for the shipping columns |
| Repositories.CustomerRepository.UpdateCustomer | repo/account.go:72-94 | merges non-empty fields into that row alone, succeeds without a row, and without a fault is accepted if and only if email and phone number are unique afterwards |
| Repositories.JWTAuthRepository.CheckCustomer | repo/auth.go:46-56 | existence and active flag, absence being an answer |
| Repositories.JWTAuthRepository.CreateCustomer | repo/auth.go:60-82 | adds exactly the new active row with a matching hash, or reports a duplicate exactly when id, email or phone is taken |
| Repositories.JWTAuthRepository.GetCustomerCredentials | repo/auth.go:85-95 | the credentials of the customer with that email, absence being an answer |
| WorkerPool.Pool.Start | pkg/workerpool/pool.go:100-109 | only the first call spawns, and it spawns and counts NumberWorker workers |
| WorkerPool.Pool.Clean | infra/cache/cleaner.go:66-77 | up to three attempts: it fails after exactly three faults, else the entry is gone after at most two |
| WorkerPool.Pool.Turn | infra/cache/cleaner.go:53-77 | a worker executes the oldest of the cleaner's delete tasks, which gives one result, an error exactly when its three attempts failed; success clears an earlier loss of the key |
| WorkerPool.Pool.Do | pkg/workerpool/pool.go:131-142 | a nil task does nothing; a task goes to the end of the queue while the context is alive, after waiting for room; on a full pool nobody started it waits; after cancellation it is sent, dropped or panics exactly as the choice of the runtime and the state of the queue have it |
| WorkerPool.Pool.Stop | pkg/workerpool/pool.go:119-128 | everything queued is executed oldest first before it returns; an unstarted pool drains nothing and a second call does nothing |
| Cluster.LocalCacheCleaner.Consume | infra/cache/cleaner.go:47-57 | one message becomes one delete per key in order, an undecodable one none, and no key pending before is forgotten |
| Cluster.Boot | infra/cache/cleaner.go:28-45 | a service with one node is coherent, its caches empty and nothing pending |
| Cluster.AddNode | infra/cache/cleaner.go:28-45 | a node that joins, its cache empty and nothing pending, keeps the cluster coherent |
| Cluster.DropFromRedis | infra/cache/redis.go:139 | an entry that expires in Redis, or a lease that lapses, keeps the cluster coherent and touches that key alone |
| Cluster.EvictFromLocal | infra/cache/local.go:24-34 | an entry that a node evicts keeps the cluster coherent and touches that key alone |
| Cluster.Settle | infra/cache/cleaner.go:36-59 | left to run, a node ends with nothing pending but keys whose latest delete was given up on, none of them one that was still to be deleted if nothing failed; the cluster is coherent throughout |
| Coherence.StatementKeepsRight | repo/proxy/account.go:115-145 | a database statement leaves every cached entry right except the account entry it is about |
| Proxies.ReadThrough.Query | repo/proxy/account.go:69 | the repository call of each getter gives the database's answer for its key |
| Proxies.ReadThrough.Refill | repo/proxy/account.go:63-75 | under the mutex: recheck, query, fill, keeping both caches right whatever fails |
| Proxies.ReadThrough.Coalesce | repo/proxy/account.go:56-75 | apart from the mutex the store is as before or has just the entry returned, whatever fails; no new mutex is left unless a Lock try or the release failed |
| Proxies.ReadThrough.Fetch | repo/proxy/account.go:40-76 | the whole read keeps both caches right whatever fails, returns a right value, follows the read plan when nothing fails, and fails exactly when its Lock or its database query failed |
| AccountProxy.CustomerRepoCache.GetCustomerPersonalInfo | repo/proxy/account.go:40-76 | refines the plain repository on every node unless the key is excused or its invalidation is pending there |
| AccountProxy.CustomerRepoCache.GetCustomerShippingInfo | repo/proxy/account.go:78-113 | likewise for shipping info |
| AccountProxy.CustomerRepoCache.GetCustomer | repo/proxy/account.go:40-113 | with nothing excused or pending for the key, no call failing and the mutex free, a read of either kind returns exactly what the plain repository would |
| AccountProxy.CustomerRepoCache.WriteRow | repo/proxy/account.go:117-120 | after the database step at most the update's own key is wrong anywhere |
| AccountProxy.CustomerRepoCache.DeleteShared | repo/proxy/account.go:122-124 | after the Delete Redis is right without that excuse |
| AccountProxy.CustomerRepoCache.Announce | repo/proxy/account.go:125-128 | after the publish every node is right or has the delete pending |
| AccountProxy.CustomerRepoCache.UpdateCustomer | repo/proxy/account.go:115-145 | a successful update follows the update plan, leaves the cluster coherent and clears an old excuse for its key; a failed one excuses at most its own key; a refused one changes nothing; without faults it succeeds exactly when the database accepts it |
| AccountProxy.UpdateThenRead | repo/proxy/account.go:115-145 | after a successful update of either kind on one node, another node that has worked off its messages without giving up on that key reads the merged row; with no call failing both succeed whenever the database accepts the update |
| AuthProxy.JWTAuthRepoCache.CheckCustomer | repo/proxy/auth.go:53-90 | a positive answer is true of the database, whatever failed or is stale |
| AuthProxy.JWTAuthRepoCache.GetCustomerCredentials | repo/proxy/auth.go:92-136 | credentials found, cached or not, are those of a customer who holds them now and had the email at some moment |
| AuthProxy.JWTAuthRepoCache.CreateCustomer | repo/proxy/auth.go:145-147 | creating a customer disturbs no entry on any node |
| AuthService.LoginFollowsTable | service/auth/impl.go:88-104 | on the database's own answer for an email, Login mints, or says "not found", "inactive" or "wrong password", each exactly when the table has it so |
| AuthService.RefreshFollowsTable | service/auth/impl.go:126-138 | on the database's own answer for a customer, RefreshToken mints, or says "not found" or "inactive", each exactly when the table has it so |
| AuthService.JWTAuthService.SignUp | service/auth/impl.go:71-85 | tokens come out exactly for an admissible new customer, who is then in the table, active, with a matching hash |
| AuthService.JWTAuthService.Login | service/auth/impl.go:88-104 | tokens come out only for an active customer whose current hash matches and who had the email at some moment; when nothing fails the outcome is the decision on what the read plan returns, and with nothing cached each outcome comes exactly when the table has it so |
| AuthService.JWTAuthService.RefreshToken | service/auth/impl.go:107-139 | tokens come out only for the active customer of a live refresh token; when nothing fails the outcome is the decision on what the read plan returns, and with nothing cached each outcome comes exactly when the table has it so; refused strings reach no cache |

## Left out

- Replica reads (infra/cache/redis.go:95-96): Redis is one linearizable store, except in ReplicaReads.
- Freshness without the two exclusions, and reads of one's own writes: false of the code, because invalidation is asynchronous; the exact conditions are proved instead.
- Clearing of negative authentication entries: the code does not clear them on sign-up (repo/proxy/auth.go:145-147) nor on an email update, so authentication answers are stated one-sidedly.
- WorkerPool.Pool.Turn: the object form has the one executor the program submits; general executors, and the result channel of capacity 1, are in the interleaved form.
- Stores.RedisCache.Lock: redsync's quorum is one node, and its pauses have no length; in the object form a lease runs out by `Cluster.DropFromRedis` or while another call waits.
- Stores.RedisCache.ExecPipeLine: payloads of the wrong type, on which the program panics, are excluded.
- Proxies.ReadThrough.Fetch: the four getters repeat one text; it is written once, with the repository call chosen by the key.
- AccountProxy.CustomerRepoCache.UpdateCustomer: the two updates repeat one text; it is written once for either kind, and its three calls are three methods.
- CacheProtocol: clocks of nodes, Redis and database are one clock; retries inside the clients are not separate steps.
- bcrypt, HMAC, JSON, gorm, bigcache, redsync and sonyflake insides; column length limits; MySQL collation of emails; invalid UTF-8.
- Logging, tracing, metrics, HTTP and gRPC transport, configuration, wiring, migration and process shutdown.
- A cleaner closed before it has subscribed (infra/cache/cleaner.go:61-63), and a failed subscription.
