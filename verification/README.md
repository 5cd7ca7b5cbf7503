# Caches, sessions and tenants: a verified model

This project models the stateful core of the service — the tenant-aware layered
cache, its eviction engine and metrics, the Redis protocols for locks, rate
limits, sessions, multi-factor challenges and password resets, row-level
security over the connection pool, the stored password-hash format and the
Markdown section update — and proves what those parts promise over whole runs.

`dafny verify dfyconfig.toml` checks everything.

How the model is laid out:

- **In-memory cache.** `L1Spec` is the cache layer as a value, `L1Cache` the
  class that updates a map of entry objects and an access order in place,
  `L1Recency` a plain recency list that both implement, `L1Lru` what that means
  for eviction. `TenantKeys` is about tenant-qualified keys.
- **Layered cache.** `Layered` adds Redis (a map from key to a string or hash
  with an expiry) and says what a `get` may answer in a sequential run;
  `LayeredCache` are the two classes; `LayeredRace` lets every access to a layer
  be a step of its own.
- **Eviction.** `SemanticIndex` and `SemanticEngine` (the similarity graph and
  the class that maintains it), `Ranking` and `Sorting` (the ranking by score),
  `EvictionSpec` and `EvictionEngine` (batches, purges and their metrics).
- **Redis protocols.** `LeaseLock`, `RateLimit`, `PasswordReset` command by command;
  `Sessions` and `SessionRuns` with `SessionManager`, and `Mfa` and `MfaHistory`, one
  whole call after another; `SessionRace` and `MfaRace`, where touches and
  verifications overlap.
- **Database.** `TenantIsolation`.
- **Text formats.** `Base64`, `PasswordHash`, `Lines`, `SectionUpsert`.
- **Counters.** `CacheMetrics`, `Tally`. Shared helpers are in `Common`.

Redis is a map with expiries under a clock that never goes back (`PasswordReset` does
without that assumption). In `LayeredRace`, `LeaseLock`, `RateLimit`, `PasswordReset`,
`SessionRace` and `MfaRace` the steps of different calls interleave freely; in all other
modules calls follow one another, and "run" there means a sequential run. Clock
readings, random tokens and ids, derived keys and verdicts of code checks are parameters.

Some properties one would expect are false of the code. Each is stated with the exact
condition under which it holds:

- a write keeps later reads fresh exactly when it reaches both layers; a lifetime
  below one second is rejected by Redis and silently lost
  (`Layered.FreshExactlyWhenAllLayersReached`), and clearing a tenant never
  reaches Redis (`Layered.ClearLeavesRedis`);
- a deleted key can be answered again exactly when a pending call still holds it: a
  read-through that already read Redis, or an overlapping write that Redis will accept
  (`LayeredRace.AnswerableExactlyWhenHeld`, `LayeredRace.DeleteCanBeUndone`);
- two tenants' keys stay apart exactly when neither id extends the other by a colon
  (`TenantKeys.TenantsApart`, `TenantKeys.ColonBreaksClearing`);
- the similarity graph is exact all along a run exactly when every re-added key stays
  similar to all it was related to (`SemanticIndex.ExactExactlyWhenLinksKept`,
  `SemanticIndex.ReAddLeavesDanglingLink`);
- the cleanup of expired entries counts each of them twice (`EvictionSpec.RunConserves`),
  and a semantic eviction misses a candidate that is an earlier one with `:meta` appended
  (`EvictionSpec.CountsAnsweredExactly`, `EvictionSpec.ClashUndercounts`);
- in a run, no release deletes another client's lock exactly when every release finds
  its own lease running or the key unlocked (`LeaseLock.ForeignDeleteExactly`); the first
  one that does not makes a second holder possible (`LeaseLock.HarmfulReleaseBreaksExclusion`);
- k requests at once can exceed limit - 1 + k admissions in a window exactly after a count
  is lost: the counter expires between `INCR` and `EXPIRE` while the last window holds
  more admissions than are still to be counted
  (`RateLimit.BreachExactlyWhenCountLost`, `RateLimit.LostCountExceedsLimit`);
- a token that has reset a password is accepted again exactly while its key lives and no
  call has marked it (`PasswordReset.UsedIsAcceptedExactly`), and it resets twice exactly
  after an acceptance that overlaps another call for the same token
  (`PasswordReset.SecondResetExactly`);
- sessions stay findable, capped and readable all along a run exactly when each new one
  outlasts those of its user's that stay (`SessionRuns.GoodExactlyWhenOutlasting`,
  `SessionRuns.ShortSessionHidesLong`), and, once touches overlap, when each touch's write
  is guarded by what it finds (`SessionRace.GoodExactlyWhenSafe`);
- overlapping verifications conserve backup codes exactly when each save finds the codes
  its call read, and let one be reused exactly after a save of a code no longer stored
  (`MfaRace.CodesConservedExactly`, `MfaRace.ReuseExactly`);
- k overlapping verifications can compare up to C(max_attempts + k, k) - 1 codes, and more
  than max_attempts - 1 + k exactly after a save of an outdated count below the limit
  (`MfaRace.BoundIsReached`, `MfaRace.BreachExactlyWhenOutdated`);
- an updated section is exactly its body, and updating twice is updating once, only
  for some line endings (`SectionUpsert.SectionIsBody`, `SectionUpsert.TextIdempotentIff`).

Noninterference needs care in its statement: deleting other tenants' harmless steps and
re-running their later ones unchanged can change what a tenant reads
(`TenantIsolation.NaiveDeletionInterferes`), so the theorem keeps those later steps as
the system rows they leave.

The code and its documentation differ in one modelled place: the docstring of the
pool's `checkout` listener (`src/database/db.py` lines 352-357) says that it only
runs `RESET ALL`, while the code also re-applies the tenant of the current context.
The model follows the code.

## Model

| member | source | states |
|---|---|---|
| L1Spec.GetKeepsInv | src/cache/cache_engine.py:87-105 | A lookup keeps map and access order on the same keys, each once, within capacity |
| L1Spec.SetKeepsInv | src/cache/cache_engine.py:107-130 | A write does too, whether it inserts, overwrites or evicts |
| L1Spec.DiscardKeepsInv | src/cache/cache_engine.py:132-164 | So does removing any set of keys |
| L1Spec.EvictLruInStep | src/cache/cache_engine.py:166-170 | An eviction of a non-empty cache removes exactly one entry and keeps both structures in step |
| L1Spec.OverwriteInPlace | src/cache/cache_engine.py:115-130 | Overwriting a present key evicts nothing and leaves the access order untouched |
| L1Spec.AnsweredForLifetime | src/cache/cache_engine.py:87-123 | A written value is answered for exactly its lifetime; without one, or with zero, for the default |
| L1Recency.RunRefines | src/cache/cache_engine.py:77-170 | In every run, state and answers are those of a recency list of (key, entry) cells; the invariant always holds |
| L1Recency.GetRefines | src/cache/cache_engine.py:87-105 | A hit moves its cell to the back, an expired lookup drops it, both answering as the list does |
| L1Recency.SetRefines | src/cache/cache_engine.py:107-130 | A new key is appended and the head dropped over capacity; an overwrite replaces its cell in place |
| L1Recency.DiscardRefines | src/cache/cache_engine.py:157-164 | Removal drops the cells and keeps the rest in order |
| L1Lru.OrderIsByUse | src/cache/cache_engine.py:100-130 | In every run the access order is sorted by the last hit or insertion of each key |
| L1Lru.EvictedAfterEnoughOthers | src/cache/cache_engine.py:125-130 | A key is lost to capacity only if at least `max_size` distinct other keys were hit or inserted since its own last use |
| L1Lru.EntriesMatchHistory | src/cache/cache_engine.py:100-123 | In every run each present entry is the product of its last write and of the hits since |
| L1Cache.L1MemoryCache.constructor | src/cache/cache_engine.py:80-85 | The object starts as the empty cache |
| L1Cache.L1MemoryCache.Get | src/cache/cache_engine.py:87-105 | In-place lookup: new state and answer are those of the value-level lookup |
| L1Cache.L1MemoryCache.Set | src/cache/cache_engine.py:107-130 | In-place write with eviction: new state is that of the value-level write |
| L1Cache.L1MemoryCache.Delete | src/cache/cache_engine.py:132-136 | Removes exactly the full key and says whether it was there |
| L1Cache.L1MemoryCache.ClearTenant | src/cache/cache_engine.py:138-149 | Removes exactly the keys with the tenant's prefix, keeps the rest in order, returns how many there were |
| L1Cache.L1MemoryCache.RemoveEntry | src/cache/cache_engine.py:157-164 | Drops a key from both structures, or changes nothing when it is absent |
| L1Cache.L1MemoryCache.EvictLru | src/cache/cache_engine.py:166-170 | Removes the head of the access order, if any |
| TenantKeys.TenantsApart | src/cache/cache_engine.py:151-155 | Two tenants' full keys never coincide if and only if neither id extends the other by a colon |
| TenantKeys.MakeKeyInjective | src/cache/cache_engine.py:151-155 | With colon-free tenants and unscoped keys, the full key determines key and tenant |
| TenantKeys.ClearsAgree | src/cache/cache_engine.py:138-149 | Clearing by key prefix and clearing by entry field remove the same entries and leave the same order |
| TenantKeys.ClearKeepsOthers | src/cache/cache_engine.py:455-461 | Clearing a tenant by entry field, or by key prefix, leaves every lookup in another scope answering as before |
| TenantKeys.ColonBreaksClearing | src/cache/cache_engine.py:138-149 | Clearing `a` by prefix drops an entry of the tenant `a:b`, which the field-based clear keeps |
| Layered.GetIsLatestOrMiss | src/cache/cache_engine.py:384-449 | When all writes reach both layers, a `get` returns the latest undeleted value of its key or misses |
| Layered.RunAgrees | src/cache/cache_engine.py:384-482 | In every such run both layers hold nothing but each key's latest value |
| Layered.GetStaysInTenant | src/cache/cache_engine.py:151-155 | In every run, whatever levels and lifetimes the writes have, what a `get` returns was set by an earlier call with the same key and the same tenant |
| Layered.RunScoped | src/cache/cache_engine.py:107-155 | In every run of well-scoped calls each entry in memory sits under the key of its own tenant |
| Layered.ClearsAgreeInEveryRun | src/cache/cache_engine.py:138-149 | After every such run the two clears remove the same entries, return the same count, keep the rest in order and leave other scopes' lookups alone |
| Layered.ClearLeavesRedis | src/cache/cache_engine.py:451-482 | After every such run and a clear the tenant's lookups answer exactly what Redis still holds |
| Layered.FreshExactlyWhenAllLayersReached | src/cache/cache_engine.py:411-449 | Later reads of a written or deleted key can never be stale if and only if the write reaches both layers |
| Layered.MissedLayerGoesStale | src/cache/cache_engine.py:244-269 | For every write that misses a layer, a clocked run and a later time at which the key reads stale |
| Layered.RedisKeepsForLifetime | src/cache/cache_engine.py:222-269 | A Redis write of at least a second is readable until exactly its whole seconds have passed; a shorter one changes nothing |
| Layered.RedisReadExactly | src/cache/cache_engine.py:222-242 | Redis answers the live string at the key unless a live string sits at its metadata key; no read changes what later reads answer |
| Layered.GetAfterSet | src/cache/cache_engine.py:384-427 | A `get` after a `set` returns the value throughout the in-memory lifetime |
| Layered.GetAfterDelete | src/cache/cache_engine.py:429-449 | A `get` after a delete at both levels misses at any time |
| Layered.DeleteAnswersExactly | src/cache/cache_engine.py:429-449 | A delete answers true if and only if an entry left memory or a live Redis key went |
| Layered.DeleteFindsWhatGetAnswers | src/cache/cache_engine.py:384-449 | A delete at both levels answers true for whatever a `get` would have answered |
| Layered.DeleteFindsWhatWasSet | src/cache/cache_engine.py:411-449 | It answers true for a value just set in memory, with or without Redis |
| Layered.SecondDeleteFindsNothing | src/cache/cache_engine.py:429-449 | A second delete from the same layers answers false |
| Layered.PromotionSticks | src/cache/cache_engine.py:391-397 | A promoted value answers for the default in-memory lifetime even if Redis loses it |
| LayeredRace.AnswersAreBounded | src/cache/cache_engine.py:384-427 | Under any interleaving, each answer is a write of that full key begun before it, at most its in-memory lifetime after it wrote memory, or between 0 and T2 + delta + D1 after it wrote Redis |
| LayeredRace.StepKeeps | src/cache/cache_engine.py:384-449 | Every single step keeps each layer, pending call and answer backed by such a write |
| LayeredRace.AnswerableExactlyWhenHeld | src/cache/cache_engine.py:384-449 | With the key in neither layer, some run answers it without setting it again if and only if a pending call still holds it |
| LayeredRace.RunForgets | src/cache/cache_engine.py:384-449 | Without such a call no run answers the key, whatever else happens |
| LayeredRace.DeleteLeavesAbsent | src/cache/cache_engine.py:429-449 | The two steps of a delete, with none between them, leave the key in neither layer |
| LayeredRace.DeleteCanBeUndone | src/cache/cache_engine.py:391-449 | A run in which a completed delete is followed by an answer with the deleted value |
| LayeredRace.GetAlone | src/cache/cache_engine.py:384-409 | A `get` whose steps follow each other answers and leaves both layers as the sequential read-through does |
| LayeredRace.SetAlone | src/cache/cache_engine.py:411-427 | So does a `set` |
| LayeredRace.DeleteAlone | src/cache/cache_engine.py:429-449 | and a delete |
| LayeredCache.L2RedisCache.Get | src/cache/cache_engine.py:222-242 | Redis lookup: misses without a client, on expiry and on a wrong-type error, else the stored value |
| LayeredCache.L2RedisCache.Set | src/cache/cache_engine.py:244-269 | Redis write with truncated lifetime; a rejected lifetime changes nothing |
| LayeredCache.L2RedisCache.Delete | src/cache/cache_engine.py:271-283 | Removes value and metadata key and says whether either was live |
| LayeredCache.ThreeLayerCache.Initialize | src/cache/cache_engine.py:374-382 | Redis is used from then on only if the ping answered |
| LayeredCache.ThreeLayerCache.Get | src/cache/cache_engine.py:384-409 | Read-through with promotion: state and answer are those of the value-level cache |
| LayeredCache.ThreeLayerCache.Set | src/cache/cache_engine.py:411-427 | Writes the chosen layers |
| LayeredCache.ThreeLayerCache.Delete | src/cache/cache_engine.py:429-449 | Deletes from the chosen layers and says whether either had the key, in the sense of `DeleteAnswersExactly` |
| LayeredCache.ThreeLayerCache.ClearTenant | src/cache/cache_engine.py:451-482 | Removes exactly the entries whose field names the tenant, from memory only, and counts them |
| SemanticIndex.SimilarityFacts | src/cache/eviction_engine.py:85-93 | Similarity is symmetric, between 0 and 1, and 1 exactly for equal hashes |
| SemanticIndex.SimilarityIsShare | src/cache/eviction_engine.py:85-93 | It is the number of positions at which the hashes agree as a share of the longer one, and 1 for two empty hashes |
| SemanticIndex.AddLinksExactly | src/cache/eviction_engine.py:95-122 | An addition links the key both ways with exactly the others whose hashes agree in more than the threshold's share of positions, and changes no other link |
| SemanticIndex.RunComplete | src/cache/eviction_engine.py:95-169 | In every run two distinct keys above the threshold list each other and no key lists itself |
| SemanticIndex.RunExact | src/cache/eviction_engine.py:95-169 | In runs that never add a present key, each key lists exactly the present keys similar to it |
| SemanticIndex.ExactIsSymmetric | src/cache/eviction_engine.py:107-120 | Such a relation is symmetric and has no dangling keys |
| SemanticIndex.AddExactIff | src/cache/eviction_engine.py:95-122 | An addition keeps the relation exact if and only if the key is new or its new hash stays similar to all it was related to |
| SemanticIndex.ExactExactlyWhenLinksKept | src/cache/eviction_engine.py:95-169 | In every run the relation is exactly similarity all along if and only if every re-addition stays similar to all the key was related to |
| SemanticIndex.RemoveKeepsExact | src/cache/eviction_engine.py:158-169 | Removals keep the relation exact |
| SemanticIndex.ReAddLeavesDanglingLink | src/cache/eviction_engine.py:100-122 | A run after which a removed key is still listed by another |
| SemanticIndex.RunRecordsAccesses | src/cache/eviction_engine.py:124-135 | In every run each entry counts its accesses since its addition and remembers the last hundred |
| Ranking.PrefixIsRanked | src/cache/eviction_engine.py:137-156 | The cut sorted listing has min(n, size) distinct present keys, best first, and leaves out nothing better |
| Ranking.ScoreIsMonotone | src/cache/eviction_engine.py:142-150 | Older, longer idle, more rarely accessed and more related entries score higher, strictly unless all four agree |
| Ranking.ScoreDifference | src/cache/eviction_engine.py:142-150 | What two entries' scores differ by is independent of the time: an hour of age counts as an hour idle and as ten related keys, accesses by their inverse |
| Ranking.FreshScore | src/cache/eviction_engine.py:142-150 | A fresh entry scores one |
| Ranking.RankingIsTimeless | src/cache/eviction_engine.py:137-156 | A ranking of an unchanged index stays one at any time |
| SemanticEngine.SemanticEvictionEngine.AddEntry | src/cache/eviction_engine.py:95-122 | The loop over the other entries links exactly the similar ones, both ways |
| SemanticEngine.SemanticEvictionEngine.UpdateAccess | src/cache/eviction_engine.py:124-135 | Records the access at a present key and nothing else |
| SemanticEngine.SemanticEvictionEngine.GetEvictionCandidates | src/cache/eviction_engine.py:137-156 | Returns a ranking of the whole index, for every `max_evict` including negative ones |
| SemanticEngine.SemanticEvictionEngine.RemoveEntry | src/cache/eviction_engine.py:158-169 | Unlinks the key from every entry it lists, then drops it |
| EvictionSpec.LruBatchIsRepeated | src/cache/eviction_engine.py:226-242 | Above its threshold a batch eviction equals `max_evict` single evictions |
| EvictionSpec.BatchActsWhenNearlyFull | src/cache/eviction_engine.py:226-242 | A batch drops its share of the access order from a cache more than nine tenths full, and changes nothing otherwise |
| EvictionSpec.PurgeIsInvisible | src/cache/eviction_engine.py:254-281 | A purge changes the answer of no later lookup, whatever lookups and deletions follow |
| EvictionSpec.PurgeIsExact | src/cache/eviction_engine.py:254-281 | A purge leaves exactly the unexpired entries, in their order, forgets the others and does not touch Redis |
| EvictionSpec.DeleteEachRemoves | src/cache/eviction_engine.py:283-302 | A semantic eviction leaves none of its candidates in either layer and takes nothing else from memory |
| EvictionSpec.CountsAnsweredExactly | src/cache/eviction_engine.py:283-302 | In every state a semantic eviction counts all candidates that a `get` would have answered, if and only if no candidate is an earlier one with `:meta` appended |
| EvictionSpec.ClashUndercounts | src/cache/eviction_engine.py:283-302 | A state in which two such candidates are both answered and only one is counted |
| EvictionSpec.AnsweredAreCounted | src/cache/eviction_engine.py:283-302 | Without such a pair the answered candidates also leave the index |
| EvictionSpec.CountsWhatIsSomewhere | src/cache/eviction_engine.py:283-302 | With no such pair in either order, exactly the candidates in memory or live in Redis are counted and leave the index |
| EvictionSpec.RunConserves | src/cache/eviction_engine.py:349-357 | In every run the total equals the sum over reasons and is the number of entries that left the cache, cleanups counted twice, plus the candidates found by semantic evictions |
| EvictionSpec.RunCountsByReason | src/cache/eviction_engine.py:349-357 | In every run each reason's counter is what the evictions of its kind took out |
| EvictionSpec.FreshRunCounts | src/cache/eviction_engine.py:175-189 | From fresh metrics the total is what the run took out |
| EvictionSpec.UpdateConserves | src/cache/eviction_engine.py:349-357 | Adding a batch's metrics keeps total and reasons equal in sum |
| EvictionEngine.CacheEvictionEngine.constructor | src/cache/eviction_engine.py:175-189 | Starts with an empty index and no metrics over the given cache |
| EvictionEngine.CacheEvictionEngine.EvictLru | src/cache/eviction_engine.py:226-252 | In-place batch eviction by level; the Redis branch raises and changes nothing |
| EvictionEngine.CacheEvictionEngine.EvictByTtl | src/cache/eviction_engine.py:254-281 | Removes exactly the expired entries from cache and index and counts them |
| EvictionEngine.CacheEvictionEngine.SemanticEviction | src/cache/eviction_engine.py:283-302 | Deletes the ranked candidates from both layers and counts those found |
| EvictionEngine.CacheEvictionEngine.CleanupExpired | src/cache/eviction_engine.py:304-318 | Purges the expired entries and records their count twice |
| EvictionEngine.CacheEvictionEngine.UpdateMetrics | src/cache/eviction_engine.py:349-357 | Adds the batch to the total and, reason by reason, to the counters |
| LeaseLock.MutualExclusion | src/core/redis_helper.py:51-67 | When every release finds its own lease running or the key unlocked, at most one client holds an unexpired lease on a key, in every reachable state and until the next step |
| LeaseLock.AtomicReleasesSuffice | src/core/redis_helper.py:63-67 | Exclusion holds in every run whose releases come at once after their own `GET`, however far sections overrun their leases |
| LeaseLock.TimelyReleaseIsOwn | src/core/redis_helper.py:63-67 | A timely release deletes the client's own live lock, frees its key at once and touches no other |
| LeaseLock.ForeignDeleteExactly | src/core/redis_helper.py:63-67 | Over every run, whatever its timing: no release deletes another's live lock if and only if each finds its own lease running or the key unlocked |
| LeaseLock.HarmfulReleaseBreaksExclusion | src/core/redis_helper.py:51-67 | After any run of harmless releases, one that is not lets a new client acquire while the owner's lease runs |
| LeaseLock.LateReleaseRuns | src/core/redis_helper.py:51-67 | For every lease time a run that reaches such a release |
| RateLimit.WindowBound | src/auth/middleware.py:321-371 | Any half-open window admits at most limit - 1 + k requests with k in flight when no count is lost, and at most k more otherwise; an admission is a step of its own between check and count |
| RateLimit.SequentialRequests | src/auth/middleware.py:357-371 | One request at a time, losing no count, stays within the limit in any 60 seconds |
| RateLimit.SequentialResets | src/auth/password_reset.py:67-120 | One at a time, losing no count, at most three reset tokens are stored per address in any 3600 seconds |
| RateLimit.BoundIsReached | src/auth/middleware.py:357-371 | For every limit and k some run that loses no count reaches limit - 1 + k |
| RateLimit.BreachExactlyWhenCountLost | src/auth/middleware.py:357-371 | For every limit and k: after any run that lost no count, the next step makes more than limit - 1 + k admissions in a window reachable if and only if it loses one |
| RateLimit.LosesWhileRenewing | src/auth/middleware.py:367-371 | In such runs a count is lost only between an increment and the renewal of its window |
| RateLimit.LostCountExceedsLimit | src/auth/middleware.py:367-371 | For every limit of at least two, every k and every such timing, a run that loses a count and makes the breach reachable |
| SessionRuns.GoodExactlyWhenOutlasting | src/auth/session_manager.py:55-238 | In every sequential run, all along: live sessions stay findable by user, no user has more than five and every lookup returns, if and only if each session created outlasts its user's live ones but, of five, the one accessed longest ago |
| SessionRuns.UniformRunKeeps | src/auth/session_manager.py:55-238 | So in every sequential run with one lifetime for all sessions, with nothing else assumed |
| SessionRuns.FiveLiveTogether | src/auth/session_manager.py:55-116 | A run after which any five given sessions of one user are live together |
| SessionRuns.CreatedLasts | src/auth/session_manager.py:55-116 | In every run after a creation for h hours, the session is found until exactly 3600 h seconds later while stored, and stays stored while nothing deletes it and its user gets no other |
| Sessions.CreateKeepsExactly | src/auth/session_manager.py:107-116 | One creation keeps all that if and only if the new session outlasts the others its cleanup keeps |
| Sessions.IndexedIsFindable | src/auth/session_manager.py:215-238 | Sessions indexed now are found through their user's id set for the rest of their lives |
| Sessions.EvictsLeastRecent | src/auth/session_manager.py:215-238 | A creation, whatever its lifetime, keeps its session and evicts nothing accessed later than what it keeps |
| Sessions.EvictsOnlyBeyondCap | src/auth/session_manager.py:215-238 | After a creation, whatever its lifetime, the user has min(5, n + 1) live sessions |
| Sessions.FiveMayStay | src/auth/session_manager.py:215-238 | A creation takes none of up to four live sessions of its user and exactly one of five |
| Sessions.CreatedIs | src/auth/session_manager.py:84-116 | The new session is active, accessed now and ends 3600 seconds an hour later; others are unchanged |
| Sessions.TouchKeepsExpiry | src/auth/session_manager.py:150-175 | Touching or invalidating a session moves no session's end; a touch of a live one records the access |
| SessionRuns.ShortSessionHidesLong | src/auth/session_manager.py:107-113 | After a 24-hour and then a 1-hour session, an hour later the long one is live and the id set gone |
| SessionRace.GoodExactlyWhenSafe | src/auth/session_manager.py:55-238 | With touches interleaved command by command, all along the run live sessions stay findable, users capped and lookups finite if and only if every write is guarded and every new session outlasts the others kept |
| SessionRace.WriteKeepsExactly | src/auth/session_manager.py:170-173 | One write, in any state such a run reaches, keeps all that if and only if it is guarded: it renews the key by at most a second more than the payload lasts, the id is in its user's set, which lasts as long, and the session is live or the user below five |
| SessionRace.DeletedComesBack | src/auth/session_manager.py:150-195 | A session deleted between `TTL` and write comes back to life in no id set |
| SessionRace.LateWriteRecurses | src/auth/session_manager.py:139-182 | A write two seconds after its `TTL` makes later lookups and deletions call each other without end |
| SessionRace.TouchAlone | src/auth/session_manager.py:150-175 | A touch or invalidation whose commands follow each other is the whole operation of the sequential store |
| Sessions.DeleteUserLeavesNone | src/auth/session_manager.py:197-213 | After deleting a user's sessions none is live |
| SessionManager.Manager.CreateSession | src/auth/session_manager.py:55-116 | Stores, indexes and cleans up; a rejected lifetime raises; the invariant is kept when the new session outlasts the others kept |
| SessionManager.Manager.CleanupUserSessions | src/auth/session_manager.py:215-238 | Deletes exactly the least recently accessed sessions beyond the cap, and nothing when the id set is small |
| SessionManager.Manager.UpdateSessionAccess | src/auth/session_manager.py:150-175 | Records the access of a live session under its remaining time to live |
| SessionManager.Manager.Delete | src/auth/session_manager.py:177-195 | Removes the session and its id and says whether it was live |
| Mfa.AttemptsAreBounded | src/auth/mfa.py:204-271 | In every sequential run at most `max_attempts` codes are compared per challenge, none after its five minutes |
| Mfa.CodesAreConserved | src/auth/mfa.py:240-247 | In every sequential run remaining and accepted backup codes make up exactly the generated multiset |
| Mfa.CodeAcceptedOnce | src/auth/mfa.py:240-247 | So in a sequential run a code generated once is accepted at most once |
| Mfa.FreshChallengeAnswers | src/auth/mfa.py:161-271 | A fresh challenge accepts a one-time code as the code check does for users with a secret, or a held backup code, spending one copy; either way it counts one attempt |
| MfaHistory.EveryAttemptCompares | src/auth/mfa.py:204-271 | In every run, a challenge in Redis and not past five minutes from its creation compares exactly one more code until `max_attempts` were compared; then, or past the five minutes, it refuses and is deleted |
| MfaHistory.EveryAttemptAnswers | src/auth/mfa.py:230-247 | Each such attempt answers by the method, user and secret of the challenge's creation and the codes held now, and spends one copy of an accepted code, nothing else |
| MfaHistory.GoneIsRefused | src/auth/mfa.py:204-213 | Five minutes after its last save a challenge is refused and nothing changes |
| MfaHistory.CreatedExactly | src/auth/mfa.py:161-202 | A creation makes a challenge, with the secret then in force, exactly for a user whose last switch was a setup |
| MfaHistory.ConfigMatchesHistory | src/auth/mfa.py:105-148 | In every run a user's configuration is what the last setup, generation and disabling left |
| MfaHistory.ChallengesMatchHistory | src/auth/mfa.py:161-271 | In every run each stored challenge stems from a creation and lies in Redis until five minutes after its last save |
| MfaRace.CodesConservedExactly | src/auth/mfa.py:239-247 | However verifications overlap, backup codes are conserved all along the run if and only if every save finds the codes it read |
| MfaRace.CodesNotReused | src/auth/mfa.py:239-247 | In every run whose saves put back only codes still stored, no code is accepted more often than it was generated |
| MfaRace.ReuseExactly | src/auth/mfa.py:239-247 | After any undisturbed run, a step makes it possible that a code is accepted more often than generated if and only if it saves a code no longer stored |
| MfaRace.CodeAcceptedTwice | src/auth/mfa.py:239-247 | Such a save is possible: two calls that read a code before either saves both have it accepted |
| MfaRace.CodesAlone | src/auth/mfa.py:236-247 | A load and save with nothing between accept and spend a backup code as the sequential verification does |
| MfaRace.ComparisonsBounded | src/auth/mfa.py:230-264 | However verifications of a challenge overlap, with k at once at most C(max_attempts + k, k) - 1 codes are compared |
| MfaRace.BoundIsReached | src/auth/mfa.py:230-264 | For every limit and k a run that compares exactly that many |
| MfaRace.BreachExactlyWhenOutdated | src/auth/mfa.py:230-264 | After any undisturbed run, a step makes more than max_attempts - 1 + k comparisons possible if and only if it saves an outdated count below the limit; with one call at a time no step does |
| MfaRace.TriesAlone | src/auth/mfa.py:225-264 | A read and count with nothing between count an attempt as the sequential verification does |
| Mfa.RenewedKeyAcceptsNothing | src/auth/mfa.py:225-264 | After the deadline a challenge whose Redis key was renewed accepts nothing, then or later |
| Mfa.MFAManager.CreateChallenge | src/auth/mfa.py:161-202 | Creates a challenge for an enabled user, else refuses |
| Mfa.MFAManager.VerifyChallenge | src/auth/mfa.py:204-271 | Deadline, attempt limit, comparison, spending and saving, in that order; the invariants are kept |
| Mfa.MFAManager.GenerateBackupCodes | src/auth/mfa.py:327-337 | Replaces the user's codes, or reports a missing configuration |
| PasswordReset.UsedIsAcceptedExactly | src/auth/password_reset.py:134-224 | Whatever the interleaving, a token that has reset a password is accepted exactly while its key lives and no call has marked it; then some call has committed and not reached its mark |
| PasswordReset.MarkedStaysUsed | src/auth/password_reset.py:134-231 | A marked token is never accepted again, however the run goes on |
| PasswordReset.AcceptedForAnHour | src/auth/password_reset.py:91-170 | However the steps interleave, a token with a valid signature is accepted exactly for 3600 seconds from its issue, until it is marked or dropped |
| PasswordReset.TokenResetsOnce | src/auth/password_reset.py:176-231 | In every run that never accepts a token while another call holds it, that token resets at most one password |
| PasswordReset.OverlapResetsTwice | src/auth/password_reset.py:176-231 | A run of two calls that reaches such an acceptance |
| PasswordReset.SecondResetExactly | src/auth/password_reset.py:176-231 | The first overlapping acceptance of a token makes its second reset reachable, and no other step does |
| TenantIsolation.Noninterference | src/database/db.py:350-371 | A tenant's answers are unchanged when all other tenants' steps that touch no system row are deleted and the rest reduced to the system rows they leave |
| TenantIsolation.AloneWithoutSystemRows | alembic/versions/20250913_enable_rls_policies.py:34-41 | When other tenants leave system rows alone, a tenant's answers are those of running alone |
| TenantIsolation.WritesStayHome | alembic/versions/20250913_enable_rls_policies.py:34-41 | A step changes committed rows only of its own tenant, before and after, and only with that tenant set |
| TenantIsolation.RejectedSettingFails | src/database/db.py:350-371 | When the setting is disabled or rejected, a reused connection's next statement fails and changes nothing |
| TenantIsolation.ExecuteAgrees | alembic/versions/20251018_adjust_rls_for_system_overlay.py:35-62 | A statement depends on the rows its tenant can see and on nothing else |
| TenantIsolation.NaiveDeletionInterferes | alembic/versions/20251018_adjust_rls_for_system_overlay.py:51-62 | A run in which deleting another tenant's private insert changes what a tenant reads |
| TenantIsolation.CommittedSelectExactly | alembic/versions/20251018_adjust_rls_for_system_overlay.py:35-62 | A select answers exactly the matching rows of the tenant, by key on the tenant table and by column elsewhere, and the matching system rows of the two overlay tables |
| TenantIsolation.SelectSeesOwnWrites | alembic/versions/20251018_adjust_rls_for_system_overlay.py:35-62 | The same anywhere in a transaction, over its own writes so far |
| TenantIsolation.WritesShow | src/database/db.py:380-391 | A statement's writes replace what the transaction shows at their keys and nothing else |
| TenantIsolation.EndOfTransaction | src/database/db.py:380-391 | A commit makes what the transaction shows the committed rows; a rollback, or a commit after a failure, leaves them |
| TenantIsolation.OneFailureUndoesAll | src/database/db.py:380-391 | After a failed statement all later ones fail and the commit changes no row |
| TenantIsolation.CommittedUpdateExactly | alembic/versions/20250913_enable_rls_policies.py:34-41 | A committed update changes and counts exactly the tenant's own matching rows; one that would hand a row to another tenant fails and is undone as a whole |
| TenantIsolation.CommittedDeleteExactly | alembic/versions/20250913_enable_rls_policies.py:34-41 | A committed delete removes and counts exactly the tenant's own matching rows |
| TenantIsolation.CommittedInsertExactly | src/database/db.py:380-391 | An insert succeeds exactly for a new key and a row of the tenant's own; then the row is there, for other tenants exactly when it is a system row of an overlay table |
| Base64.DecodeEncode | src/auth/service.py:318-329 | Lenient base64 decoding undoes encoding for every byte string |
| Base64.DecodeIgnores | src/auth/service.py:325-326 | Characters outside the alphabet, pads apart, change nothing wherever they stand |
| Base64.PaddingExactly | src/auth/service.py:325-326 | Symbols and pads decode exactly when the last group is whole or has two or three symbols and the pads it lacks; the bytes have six bits a symbol |
| Base64.NothingAfterPads | src/auth/service.py:325-326 | After the pads that complete a group the rest is ignored |
| Base64.EncodeAvoidsDollar | src/auth/service.py:318 | An encoding never contains the field separator |
| PasswordHash.ParsePrint | src/auth/service.py:318-328 | Reading a printed integer returns it, and the print has no separator |
| PasswordHash.ParseIntExactly | src/auth/service.py:324 | A field reads as an integer exactly when, blanks apart, it is digits with single underscores between them, signed or not |
| PasswordHash.HashFields | src/auth/service.py:318-325 | A hash string splits into the four fields it was made of |
| PasswordHash.VerifyHash | src/auth/service.py:314-332 | A stored hash accepts exactly the passwords whose derived key is that of the original |
| PasswordHash.VerifyExactly | src/auth/service.py:320-332 | Any stored string is accepted exactly when it names the algorithm and its other three fields read as a count, a salt and the key derived from them |
| PasswordHash.HashPinsFields | src/auth/service.py:314-318 | Equal hash strings have equal salt, iteration count and derived key |
| CacheMetrics.Conservation | src/cache/cache_metrics.py:68-98 | Operations sum to the number of records across tenants, levels and kinds; hits and misses agree likewise |
| CacheMetrics.RowsCountTheirRecords | src/cache/cache_metrics.py:68-95 | Each row counts the records, hits and misses of its own tenant or level; records without a tenant count for `global` |
| CacheMetrics.OperationsCountTheirRecords | src/cache/cache_metrics.py:97-98 | Each operation counter counts its records |
| CacheMetrics.StatsOfMatch | src/cache/cache_metrics.py:74-95 | The incremental rows equal a recount of the full log |
| CacheMetrics.OperationsOfMatch | src/cache/cache_metrics.py:97-98 | So do the operation counters, which sum to the number of records |
| CacheMetrics.CacheMetricsCollector.RecordMetric | src/cache/cache_metrics.py:68-98 | Keeps all counters those of the full log and the history its last `max_metrics_history` records |
| CacheMetrics.ReportCountsLast | src/cache/cache_metrics.py:100-124 | Totals count the records inside the window, and the tenant's if one is asked for, among the last `max_metrics_history` |
| CacheMetrics.CacheMetricsCollector.GetStats | src/cache/cache_metrics.py:100-167 | Totals over the remembered records in the window and of the tenant; the rows of that tenant or of all, per level and per operation, each a recount of the full log |
| SectionUpsert.UpsertSection | scripts/pillar_auditor.py:265-288 | The two scans and the line list compute the section update |
| SectionUpsert.ParsesExactly | scripts/pillar_auditor.py:265-284 | A text has these three parts if and only if the section follows the first line equal to the header but for case and surrounding blanks and reaches to the next line that opens with `# ` or `## ` |
| SectionUpsert.ParsesNoneExactly | scripts/pillar_auditor.py:265-272 | There is none exactly when no line is the header |
| SectionUpsert.SectionIsBody | scripts/pillar_auditor.py:265-288 | Get after put: the section holds exactly the body if and only if no final line break is at stake |
| SectionUpsert.OutsideIsKept | scripts/pillar_auditor.py:265-288 | Lines outside the section keep content and order; only final or separating blank lines may differ |
| SectionUpsert.ReplaceParses | scripts/pillar_auditor.py:281-288 | What a replacement leaves, in full |
| SectionUpsert.AppendParses | scripts/pillar_auditor.py:265-280 | What an append leaves, in full |
| SectionUpsert.PutPut | scripts/pillar_auditor.py:265-288 | The second of two updates wins, up to final empty lines |
| SectionUpsert.Idempotent | scripts/pillar_auditor.py:265-288 | Updating twice equals updating once, up to final empty lines |
| SectionUpsert.TextIdempotentIff | scripts/pillar_auditor.py:265-288 | As texts, up to final newlines, if and only if the section was there or there are no other line breaks |
| Lines.SplitJoin | scripts/pillar_auditor.py:266-288 | Splitting undoes joining, up to one final empty line |
| Lines.SplitsAtBreaks | scripts/pillar_auditor.py:266 | A text splits at each of ten break characters, a carriage return and line feed being one, and nowhere else |
| Common.StripTakesBlanks | scripts/pillar_auditor.py:269 | Stripping takes away the blanks at both ends and nothing else |
| Common.SpaceIsBlank | scripts/pillar_auditor.py:269 | The twenty-nine characters that count as blanks |

## Left out

- RateLimit.BreachExactlyWhenCountLost: after a step that loses a count the bound is that of `WindowBound`; what a request does after renewing its window takes no slot.
- LeaseLock.MutualExclusion: assumes harmless releases; `HarmfulReleaseBreaksExclusion` shows that nothing less is enough.
- SessionRuns.GoodExactlyWhenOutlasting: one whole call after another, each in a second of its own, so that no two sessions tie for the least recent access.
- SessionRace.GoodExactlyWhenSafe: touches and invalidations are taken apart into commands; creation, cleanup and deletion are single steps.
- Mfa.AttemptsAreBounded: one whole call after another; overlapping calls are in `MfaRace`.
- Mfa.CodesAreConserved: one whole call after another; overlapping calls are in `MfaRace`.
- Mfa.CodeAcceptedOnce: one whole call after another; `MfaRace.ReuseExactly` says what overlapping calls do.
- MfaRace.ComparisonsBounded: the attempt counts of one challenge whose payload stays stored; its deadline and its deletion at the limit are in `Mfa`.
- CacheMetrics.CacheMetricsCollector.GetStats: leaves out hit rates, response times, memory and cache sizes.
- LayeredRace.AnswersAreBounded: the metadata write of a Redis read or write is one step with the read or write itself.
- TenantIsolation.Noninterference: each transaction reads the rows committed last; row locks, blocking writers and stricter isolation levels are not modelled, and a failing tenant setting fails every statement, also one that would scan no row.
- Primary keys are drawn per tenant from one sequence (`owner`), so no tenant inserts another's key; the database role is subject to row-level security.
- The asynchronous engine's listeners, the `connect` listener (overtaken by `checkout`), tables without the policies, foreign keys and DDL.
- `L3DatabaseCache` is a placeholder; the Redis layer's own `clear_tenant` and `evict_lru` never do anything (the eviction branch is modelled as raising).
- Response times, hit rates, memory and size figures in cache statistics: floating-point aggregates read by nothing else.
- Values other than `None` and text: JSON encoding of arbitrary values is taken to round-trip.
- Redis outages and client errors other than wrong types and rejected lifetimes; the contents of metadata hashes.
- One call reads the clock once where `datetime.utcnow()` or `time.time()` is called several times. Times are exact reals, whole seconds in the session store.
- Threads and `asyncio` locks inside one process: methods of one object run one after another.
- The semantic hash of a value (a parameter), tenant eviction, cache warming and the background loop of the eviction engine.
- Existence checks of users and tenants: the database session around them is taken to open (`get_session` in src/database/db.py is asynchronous, while the callers use it as a plain context manager).
- Malformed payloads, bulk cleanups of expired sessions and challenges, and listing a user's sessions.
- Key derivation, HMAC, token signatures, one-time codes and id generation: parameters, with uniqueness where it is needed. The hash written on a password reset has another format that `_verify_password` does not read.
- Python's `int` and `lower` on non-ASCII text.
- Job status transitions, command-line tools, health checks, prompts and configuration: no property over runs.
