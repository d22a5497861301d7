# Verified model of the stateful core of ruprogress

ruprogress is an MCP server in front of Redmine. This project models, in Dafny, the parts of it whose correctness
spans many calls or many concurrent requests, and proves what they keep over every run:

- the keyed token-bucket rate limiter, its sharding, its pristine sweep and its eviction (`TokenBucket`, `Limiter`,
  `LimiterRuns`, `LimiterCapacity`, `LimiterClock`, `LimiterEquivalence`);
- the quota ledger of the attachment store, over every interleaving of downloads, lookups and sweeps
  (`MapSums`, `Attachments`, `Downloads`, `AttachmentStore`);
- the token-introspection cache, over every interleaving of verifications, purges and cancellations
  (`TokenCache`, `TokenCacheRuns`);
- the page walk and the retry loop of the Redmine client, against an arbitrary server (`Pagination`, `Retry`);
- the readiness probe's lock held across an upstream call (`Health`);
- three pieces of decision logic: custom-field resolution and overlay (`CustomFields`), tool visibility against call
  admission (`Scopes`, `ScopeTable`), and the release-number parser and printer (`Version`).

Objects that change in place are classes whose methods are proved against functions or step relations on values; the
theorems over whole runs are lemmas about those. `dafny verify dfyconfig.toml` checks everything.

## How to read the model

**Limiter.** Token counts are exact integers in nano-tokens, so refilling `rps` tokens per second for `n` nanoseconds
adds `n * rps`. The hash function is arbitrary. A run is any sequence of calls from an empty limiter; concurrent callers
are serialised by the per-shard lock, so every interleaving is such a sequence. Which of several equally old buckets is
evicted is left open, as it is in the code. No theorem assumes `rps >= 1`, `burst >= rps` or `max_keys >= 1`
(`config.rs:1394-1441`) except where its statement says so.

**Attachments.** One step of `Attachments` is one section under the store's lock; one event of `Downloads` is one chunk
of one download, or a section of its own. `live` is a ledger of the armed guards, kept only for the proofs.

**Token cache.** A verification is a lookup, an upstream response and a store, with anything in between. `seen` and
`origin` are history. Two clocks are read, and neither is assumed monotone.
The configured time to live governs accepting entries; rejections live five seconds whatever it is
(`auth/oauth.rs:314`), unless caching is off.

**Client loops.** The server is any function of the request number and offset (`Pagination`), or any stream of outcomes,
durations and jitter draws (`Retry`).

**Health.** Requests arrive, obtain the lock, finish or are dropped in any order.

## Where the code and its documentation differ

The model follows the code in each of these.

- `ratelimit.rs` advertises a computed `Retry-After`, but with an accepted configuration (`rps >= 1`) it is always one
  second (`TokenBucket.RetryAfterIsOneSecond`).
- Sweeping pristine buckets is documented to have no effect on any decision a caller could observe
  (`ratelimit.rs:93-103`), and `take` to accept readings that go back (52-56). Three calls at 0, one second and 0 again
  show the sweep (`LimiterEquivalence.ThreeCallsShowTheSweep`). It is invisible exactly on clocks that never fall after
  a rise (`LimiterEquivalence.SweepIsInvisibleIff`).
- A test name promises that a clock running backwards grants no extra tokens (`ratelimit.rs:305-312`). It does not by
  itself, but the next forward step is credited again (`LimiterClock.OscillatingClockBreaksTheBound`). A clock keeps the
  bound for `d` seconds exactly when it moves at most `d` seconds forward in all (`LimiterClock.ClockKeepsBoundIff`).
  In both results the configurations that show a failure are ones the server accepts unless a single step forward is
  longer than 2^32 - 1 nanoseconds; for a longer step the burst used exceeds 32 bits, and there
  may be no accepted configuration that shows it.
- `docs/configuration.md:76` calls `REDMINE_MCP_RATE_LIMIT_MAX_KEYS` a hard cap. The per-shard cap is rounded up, so 129
  keys may become 130 (`LimiterCapacity.SpreadHashExceedsTheCap`). It is a hard cap exactly when the hash fits no larger
  set of keys into the shards: always when the shard count divides it, and only then if every shard has keys enough to
  fill it (`LimiterCapacity.MaxKeysIsHardIff`).
- `QuotaGuard` admission saturates, so a store cap of exactly `u64::MAX` never refuses
  (`Attachments.AdmissionIsExactIff`), and the books stop balancing (`Attachments.BooksBalanceIff`).
- `TokenVerifier::purge` is documented to stop a revoked token immediately (`auth/oauth.rs:189-192`). A verification
  in flight across the purge, whether it holds its response or still waits for one that upstream formed earlier, may
  store its verdict afterwards; without one in flight the purge is final (`TokenCacheRuns.PurgeIsUndoneIff`).
- The client's timeout is documented as the total budget of a request, retries included (`client.rs:127-133`, 450-453).
  It bounds when attempts start, but each attempt gets the whole timeout again (`client.rs:253`), so a retried call may
  take up to twice as long (`Retry.EndsWithinTwice`); `Retry.KeepsBudgetIff` says exactly when it cannot.
- `Page::offset` is documented as the offset of the first item (`page.rs:12`); `fetch_all` returns the offset after the
  last one. With `max_pages == 0` it reports a complete empty page without asking the server
  (`Pagination.HonestServer`).
- A tool hidden from `tools/list` can still be called with arguments that no rule covers
  (`Scopes.HiddenYetAdmittedIff`, `ScopeTable.HiddenTimeEntryAdmitsNoAction`).

## Model

| member | source | states |
|---|---|---|
| TokenBucket.Bucket.Take | crates/ruprogress-mcp/src/ratelimit.rs:51-91 | the bucket afterwards and the answer, flags and retry seconds included, are those of the specification functions on the bucket before |
| TokenBucket.FlagsAreTransitions | crates/ruprogress-mcp/src/ratelimit.rs:14-27 | from any bucket, an admission reports recovery exactly after a denial, and a denial reports being newly limited exactly after an admission |
| LimiterRuns.FlagsReportTransitions | crates/ruprogress-mcp/src/ratelimit.rs:14-27 | in every run the flags report the change from the key's previous answer, or from an admission if the key was evicted since |
| LimiterRuns.FirstAnswerReportsNoRecovery | crates/ruprogress-mcp/src/ratelimit.rs:41-47 | a key's first answer reports no recovery, and a denial as new |
| TokenBucket.Bucket.IsPristine | crates/ruprogress-mcp/src/ratelimit.rs:104-113 | computes the pristine test on the bucket's fields |
| TokenBucket.PristineIffIndistinguishable | crates/ruprogress-mcp/src/ratelimit.rs:93-113 | a bucket is pristine if and only if no later sequence of calls tells it from a freshly created one: the documented equivalence, and that the test sweeps everything it may |
| TokenBucket.DrainAtOneInstant | crates/ruprogress-mcp/src/ratelimit.rs:51-91 | n simultaneous calls all succeed exactly when n tokens are in the bucket |
| TokenBucket.RefillComposes | crates/ruprogress-mcp/src/ratelimit.rs:57-61 | refilling in two steps is refilling once, so a denied call costs nothing |
| TokenBucket.RetryAfterIsOneSecond | crates/ruprogress-mcp/src/ratelimit.rs:70-84 | every denial under an accepted configuration advertises exactly one second |
| Limiter.Masked | crates/ruprogress-mcp/src/ratelimit.rs:161-169 | the masked hash indexes a shard because the shard count is a power of two |
| Limiter.NextPowerOfTwo | crates/ruprogress-mcp/src/ratelimit.rs:143-147 | the shard count is the power of two at most 16 next above its argument |
| Limiter.MaskIsRemainder | crates/ruprogress-mcp/src/ratelimit.rs:155-162 | the masked hash is the remainder by the shard count |
| Limiter.ShardsOf | crates/ruprogress-mcp/src/ratelimit.rs:143-159 | one shard per 64 keys, at least one and at most 16, rounded up to a power of two, and the keys divided among them rounding up |
| Limiter.OldestKey | crates/ruprogress-mcp/src/ratelimit.rs:199-207 | the key chosen for eviction was touched no later than any other |
| Limiter.Limiter.MakeRoom | crates/ruprogress-mcp/src/ratelimit.rs:173-180 | below the cap nothing goes; else exactly the pristine buckets; if there are none, exactly one oldest bucket |
| Limiter.Limiter.Check | crates/ruprogress-mcp/src/ratelimit.rs:161-185 | the code over a heap of buckets refines the step on values, for known and new keys, and no bucket is shared |
| Limiter.CheckProjects | crates/ruprogress-mcp/src/ratelimit.rs:161-185 | a call touches another key only by sweeping it when pristine or evicting it, and never evicts its own |
| LimiterRuns.EvictsOnlyWhenFull | crates/ruprogress-mcp/src/ratelimit.rs:173-180 | an eviction happens only for a new key, in a full shard that holds no pristine bucket |
| LimiterRuns.EvictsLeastRecentlyCalled | crates/ruprogress-mcp/src/ratelimit.rs:195-207 | it takes a key whose last call was by the clock no later than that of any other key of the shard |
| LimiterRuns.SameDecisionsAsReference | crates/ruprogress-mcp/src/ratelimit.rs:389-434 | on any clock that never falls after a rise, until a key is evicted each of its answers equals that of the single unbounded map |
| LimiterEquivalence.SweepIsInvisibleIff | crates/ruprogress-mcp/src/ratelimit.rs:93-103 | over all configurations and calls on given clock readings, every answer to a key not yet evicted is the reference's if and only if the readings never fall after a rise |
| LimiterEquivalence.ThreeCallsShowTheSweep | crates/ruprogress-mcp/src/ratelimit.rs:173-180 | with room for one key, a call at 0, another key's at one second and the first's at 0 again is admitted where the reference denies |
| LimiterRuns.RoomyRunsMatchReference | crates/ruprogress-mcp/src/ratelimit.rs:458-506 | while no shard is asked for more keys than its cap, every answer is the reference's, whatever the clock does |
| LimiterRuns.HeldExactly | crates/ruprogress-mcp/src/ratelimit.rs:170-185 | in such runs nothing is forgotten: exactly the keys that called are held |
| LimiterRuns.AdmitsAtLeastReference | crates/ruprogress-mcp/src/ratelimit.rs:93-113 | on every prefix of every run, for every clock and with any evictions, a key is admitted at least as often as by the reference |
| LimiterRuns.AnyClockBound | crates/ruprogress-mcp/src/ratelimit.rs:57-68 | for any clock, admissions are at most burst times one plus the key's evictions, plus rps times the seconds the clock moved forward |
| LimiterRuns.WindowBound | crates/ruprogress-mcp/src/ratelimit.rs:57-68 | the classical token-bucket bound over any window, for a clock that never runs backwards |
| LimiterClock.ClockKeepsBoundIff | crates/ruprogress-mcp/src/ratelimit.rs:52-62 | over all configurations, calls and keys on given clock readings, the bound for d seconds holds if and only if the clock moves at most d seconds forward in all; likewise over the accepted 32-bit rates while no step exceeds 2^32 - 1 ns |
| LimiterClock.GreedyRun | crates/ruprogress-mcp/src/ratelimit.rs:51-91 | on any readings some run is admitted a full burst plus one call for every nanosecond forward |
| LimiterClock.OscillatingClockBreaksTheBound | crates/ruprogress-mcp/src/ratelimit.rs:52-62 | a clock jumping back and forth within one second breaks the bound for one second and keeps that for two, and three of four calls are admitted |
| LimiterRuns.RetryAfterIsExact | crates/ruprogress-mcp/src/ratelimit.rs:69-90 | for any clock, after a denial the next admission happens exactly when the clock's forward movement between the key's own calls has refilled the deficit, it reports the recovery, and waiting the advertised time always suffices |
| LimiterRuns.ReachableStatesAreBounded | crates/ruprogress-mcp/src/ratelimit.rs:143-185 | each key sits in its hash's shard, no shard is over its cap, the total is at most max_keys plus shards minus one |
| LimiterCapacity.RunExists | crates/ruprogress-mcp/src/ratelimit.rs:161-185 | every sequence of calls is a run of the limiter |
| LimiterCapacity.MaxKeysIsHardIff | docs/configuration.md:76 | the configured cap bounds every reachable total if and only if the hash fits no larger set of keys into the shards; even division suffices, and is needed once every shard has keys to fill it |
| LimiterCapacity.SpreadHashExceedsTheCap | docs/configuration.md:76 | with max_keys 129 and a hash over both shards a run holds 130 keys |
| LimiterCapacity.CrowdedHashKeepsTheCap | docs/configuration.md:76 | a hash that crowds one shard keeps any cap |
| Attachments.StepConserves | crates/ruprogress-mcp/src/attachments.rs:62-95 | every locked section keeps in-flight equal to the sum of live reservations, and its saturating arithmetic is exact |
| Attachments.StepKeepsCap | crates/ruprogress-mcp/src/attachments.rs:286-375 | every locked section keeps committed plus in-flight within the cap when commits are covered |
| Attachments.InFlightIsConserved | crates/ruprogress-mcp/src/attachments.rs:270-301 | conservation in every state of every interleaving, whatever sizes are committed |
| Attachments.CapIsNeverExceeded | crates/ruprogress-mcp/src/attachments.rs:283-301 | committed plus in-flight never exceeds the cap in any interleaving of covered commits |
| Attachments.LookupAnswersIff | crates/ruprogress-mcp/src/attachments.rs:386-400 | a lookup answers the entry exactly while its lifetime lasts |
| Attachments.CommittedFileIsFound | crates/ruprogress-mcp/src/attachments.rs:334-400 | a committed file is found by every lookup within its lifetime unless its own uuid is committed again or swept, whatever happens to others |
| Attachments.OthersStay | crates/ruprogress-mcp/src/attachments.rs:337-476 | each locked section leaves every entry it does not touch, and adds none but the one committed |
| Downloads.ChunkIsTakenIff | crates/ruprogress-mcp/src/tools/files.rs:405-427 | a chunk lets the download go on if and only if it is stored and fits the download cap and, beyond the reservation, the store; the reservation then grows by exactly the deficit |
| Downloads.CommitIsExact | crates/ruprogress-mcp/src/tools/files.rs:433 | the commit registers exactly the bytes written and gives the whole reservation back |
| Downloads.EventKeepsInv | crates/ruprogress-mcp/src/tools/files.rs:395-433 | every chunk, failure, commit, drop, lookup and sweep keeps each download within its reservation and the cap, whatever the others do in between |
| Downloads.DownloadsStayWithinCap | crates/ruprogress-mcp/src/tools/files.rs:364-434 | in every interleaving of downloads, with no assumption on committed sizes: the ledger is exact, the store cap holds, and no file exceeds the download cap |
| Attachments.ReleasedExactlyOnce | crates/ruprogress-mcp/src/attachments.rs:51-95 | each reservation is released exactly once, by its own commit or drop |
| Attachments.AdmissionIsExactIff | crates/ruprogress-mcp/src/attachments.rs:286-294 | the saturating admission test is exact on all inputs if and only if the cap is below u64::MAX |
| Attachments.BooksBalanceIff | crates/ruprogress-mcp/src/attachments.rs:283-301 | conservation, and the cap under covered commits, hold in every reachable state if and only if the cap is below u64::MAX |
| AttachmentStore.AttachmentStore.CommittedLocked | crates/ruprogress-mcp/src/attachments.rs:270-272 | the loop over the entries computes the ledger's sum |
| AttachmentStore.AttachmentStore.TryReserve | crates/ruprogress-mcp/src/attachments.rs:286-301 | one reserve step; a refusal changes nothing and happens only when the bytes do not fit |
| AttachmentStore.AttachmentStore.Commit | crates/ruprogress-mcp/src/attachments.rs:337-375 | a commit step under the lock followed by the disarm step |
| AttachmentStore.AttachmentStore.Lookup | crates/ruprogress-mcp/src/attachments.rs:390-408 | one lookup step; an answer is never past its lifetime, and an expired entry is removed |
| AttachmentStore.AttachmentStore.SweepExpired | crates/ruprogress-mcp/src/attachments.rs:471-476 | the loop removes exactly the named entries |
| AttachmentStore.AttachmentStore.DownloadAndCommit | crates/ruprogress-mcp/src/tools/files.rs:370-434 | a whole download succeeds if and only if it opens and every chunk is stored and fits the download cap and the room in the store; it then commits exactly the bytes received; a failure names its cause at the first chunk not taken, gives the reservation back and leaves the entries alone; the ledger stays sound |
| AttachmentStore.WrittenIsTotal | crates/ruprogress-mcp/src/tools/files.rs:405 | the bytes counted are the sum of the chunks' lengths, saturating at 64 bits |
| AttachmentStore.QuotaGuard.Extend | crates/ruprogress-mcp/src/attachments.rs:66-78 | one extend step, re-checked against the current ledger |
| AttachmentStore.QuotaGuard.Drop | crates/ruprogress-mcp/src/attachments.rs:87-95 | one drop step: armed guards release their bytes, disarmed ones nothing |
| TokenCache.TokenVerifier.CacheGet | crates/ruprogress-mcp/src/auth/oauth.rs:269-289 | refines the lookup on values, including the two removals on expiry |
| TokenCache.TokenVerifier.CachePut | crates/ruprogress-mcp/src/auth/oauth.rs:291-342 | refines the store on values: lifetime, purge of dead entries, capacity rule |
| TokenCache.TokenVerifier.Verify | crates/ruprogress-mcp/src/auth/oauth.rs:172-187 | without interference: the cached answer on a hit, else the judged response, stored; outages pass through uncached |
| TokenCacheRuns.StoringIsLocal | crates/ruprogress-mcp/src/auth/oauth.rs:291-342 | storing one token never removes, changes or adds another token's unexpired entry and keeps the 1024 cap |
| TokenCacheRuns.StepKeepsInv | crates/ruprogress-mcp/src/auth/oauth.rs:172-342 | every section keeps the cache within capacity and every entry backed by a response really received |
| TokenCacheRuns.VerdictOf | crates/ruprogress-mcp/src/auth/oauth.rs:162-267 | a response is accepted exactly when active and its exp more than five seconds ahead, and the context carries the response's own expiry, scopes and subject |
| TokenCacheRuns.ServedExactlyForLifetime | crates/ruprogress-mcp/src/auth/oauth.rs:269-342 | a stored result is served exactly until min(ttl, exp minus five seconds) or, if rejecting, five seconds, and an acceptance only while the token lasts |
| TokenCacheRuns.OthersAreKept | crates/ruprogress-mcp/src/auth/oauth.rs:193-342 | an entry is lost only to its own purge, its own lookup once over, or a store |
| TokenCacheRuns.HitsAreRecentIntrospections | crates/ruprogress-mcp/src/auth/oauth.rs:269-342 | in every interleaving a hit repeats the verdict of a response for that very token, stored less than its permitted lifetime ago, never within five seconds of the response's own exp |
| TokenCacheRuns.MissesAreIntrospections | crates/ruprogress-mcp/src/auth/oauth.rs:179-187 | coverage: every other answer is the response's verdict or an outage, neither touching the cache |
| TokenCacheRuns.NoHitAfterPurge | crates/ruprogress-mcp/src/auth/oauth.rs:193-199 | after a purge no lookup of the token hits until a result for it is stored again |
| TokenCacheRuns.HitNeedsNewResponse | crates/ruprogress-mcp/src/auth/oauth.rs:172-199 | if no response is held across the purge, every later hit rests on one received after it |
| TokenCacheRuns.PurgeIsFinal | crates/ruprogress-mcp/src/auth/oauth.rs:189-199 | if no verification of the token is in flight at the purge, every later hit follows a verification begun after it |
| TokenCacheRuns.RequestUndoesPurge | crates/ruprogress-mcp/src/auth/oauth.rs:172-199 | a request still waiting at the purge can accept, store and be hit with no new verification |
| TokenCacheRuns.PurgeIsUndoneIff | crates/ruprogress-mcp/src/auth/oauth.rs:172-199 | from any state keeping the invariant, with room left on the clocks, some continuation undoes the purge without a new verification if and only if one of the token is in flight |
| Pagination.FetchAll | crates/redmine-client/src/client.rs:702-769 | the loop returns the page or error of the walk and requests exactly its offsets, for every server and limits |
| Pagination.AnyServer | crates/redmine-client/src/client.rs:695-769 | against any server: at most max_pages requests, each from where the page before ended; the page returned is what was received in order, with the last total, limit and offset, and its truncated flag exact |
| Pagination.FailsIff | crates/redmine-client/src/client.rs:725 | an error is returned if and only if it is the answer to the last request |
| Pagination.HonestServer | crates/redmine-client/src/client.rs:702-769 | against a fixed list: exactly a prefix, within a page of the item cap, and the truncated flag is exact if and only if a page may be fetched or the list is empty |
| Pagination.FitsTheCaps | crates/redmine-client/src/client.rs:695-760 | a list that fits the caps is returned whole |
| Retry.BackoffDuration | crates/redmine-client/src/retry.rs:38-43 | no draw of the jitter exceeds the backoff cap |
| Retry.JitterIsFull | crates/redmine-client/src/retry.rs:38-43 | every whole number of milliseconds up to the capped exponential delay can be drawn, and no more |
| Retry.CanRetryIff | crates/redmine-client/src/client.rs:480-492 | exactly rate limits, 5xx and transient transport failures of GET and HEAD are retried while attempts and time remain, but no 500 under a bearer credential |
| Retry.SendWithRetry | crates/redmine-client/src/client.rs:454-509 | the requests the loop sends, with their times and sleeps, and its result are those of the turn-by-turn specification |
| Retry.RetryBudget | crates/redmine-client/src/client.rs:450-509 | attempts, idempotence, bearer 500, deadline, sleep bounds, start times, which error may be retried or returned, and that what is reported is what the environment answered, for every environment |
| Retry.EndsWithinTwice | crates/redmine-client/src/client.rs:253-293 | a call ends within twice its budget, and all but its last attempt within it |
| Retry.KeepsBudgetIff | crates/redmine-client/src/client.rs:450-461 | every call ends within its budget if and only if no second attempt can start once time has passed |
| Health.HealthState.ProbeCached | crates/ruprogress-mcp/src/health.rs:178-197 | one request's view: it probes exactly when caching is off or the cache is empty or stale, and stores what it probed |
| Health.StepKeepsInv | crates/ruprogress-mcp/src/health.rs:178-206 | every step keeps: only the lock's holder probes, and completed probes are a time to live apart |
| Health.OneProbeInFlight | crates/ruprogress-mcp/src/health.rs:185-188 | at most one upstream probe is in flight, held by the lock's holder, under any cancellation |
| Health.ProbesAreSpaced | crates/ruprogress-mcp/src/health.rs:188-196 | a probe starts no earlier than the time to live after every completed one |
| Health.AnswersAreFresh | crates/ruprogress-mcp/src/health.rs:188-197 | every answer is the result of a probe completed in this step or younger than the time to live |
| Health.CacheIsAProbe | crates/ruprogress-mcp/src/health.rs:194-206 | the cached result is what some completed probe reported, when it did |
| Health.UncachedAnswersAreOwn | crates/ruprogress-mcp/src/health.rs:179-184 | with caching off every answer is the request's own probe |
| Health.ProbeRate | crates/ruprogress-mcp/src/health.rs:185-197 | k further completed probes take at least k times the time to live |
| Health.CancellationFreesTheLock | crates/ruprogress-mcp/src/health.rs:188-196 | coverage: dropping a request mid-probe frees the lock, leaves the cache alone and lets the next one probe |
| Health.WithoutCachingProbesOverlap | crates/ruprogress-mcp/src/health.rs:179-184 | coverage: with caching off two probes run at once |
| CustomFields.ValidateEntryShapes | crates/ruprogress-mcp/src/tools/custom_fields.rs:144-163 | accepts exactly the lists whose entries give one of id and name, and otherwise says what is wrong with the first that does not |
| CustomFields.NameIsUnique | crates/ruprogress-mcp/src/tools/custom_fields.rs:217-245 | a name resolves to an id exactly when one definition answers to it and has that id |
| CustomFields.ResolveEntries | crates/ruprogress-mcp/src/tools/custom_fields.rs:176-215 | succeeds exactly when an assignment of distinct fields to entries exists, returns it in order with the values, and every error of a name or a collision has its cause |
| CustomFields.FillsAreUsable | crates/ruprogress-mcp/src/tools/custom_fields.rs:453-510 | every computed fill sets a missing field to at least one value, all inside a nonempty possible-values list, in the field's arity |
| CustomFields.FillsAreExact | crates/ruprogress-mcp/src/tools/custom_fields.rs:453-510 | a fill is computed if and only if some missing field's first matching definition offers it: own default, else first configured one, nonempty and all permitted |
| CustomFields.FillsAreInOrder | crates/ruprogress-mcp/src/tools/custom_fields.rs:484-509 | the fills come in the order the fields were reported, at most one for each |
| CustomFields.MergeFills | crates/ruprogress-mcp/src/tools/custom_fields.rs:515-528 | the in-place loop computes the overlay |
| CustomFields.MergeOverrides | crates/ruprogress-mcp/src/tools/custom_fields.rs:512-528 | the last fill of a field wins, other fields keep their value, existing order and distinctness are kept |
| CustomFields.MergeIsIdempotent | crates/ruprogress-mcp/src/tools/custom_fields.rs:512-528 | merging the same fills again changes nothing |
| CustomFields.RecoveredWriteIsSound | crates/ruprogress-mcp/src/tools/custom_fields.rs:626-663 | the recovered write addresses each field once and keeps the caller's value wherever no fill applies |
| Scopes.IsNotesOnlyUpdate | crates/ruprogress-mcp/src/auth/scope.rs:265-277 | the loop decides: at least one other key than issue_id, and only notes keys |
| Scopes.Missing | crates/ruprogress-mcp/src/auth/scope.rs:388-394 | exactly the required scopes not held |
| Scopes.UpdateAdmittedIff | crates/ruprogress-mcp/src/auth/scope.rs:286-327 | exactly which scopes admit an issue update: notes only, base, parent change, agile fields, tags |
| Scopes.CreateAdmittedIff | crates/ruprogress-mcp/src/auth/scope.rs:335-347 | exactly which scopes admit an issue creation |
| Scopes.CallAdmittedIff | crates/ruprogress-mcp/src/auth/scope.rs:351-376 | exactly which scopes admit a call of any other tool with an entry, by its kind of rule |
| Scopes.UnmappedIsDenied | crates/ruprogress-mcp/src/server.rs:446-452 | a tool without an entry is neither admitted nor shown |
| Scopes.AdminSeesAll | crates/ruprogress-mcp/src/server.rs:410-413 | the admin scope admits every call and shows every tool, and without enforcement all are shown |
| Scopes.ListedIffCallable | crates/ruprogress-mcp/src/auth/scope.rs:403-432 | for any table, a non-admin token is shown a tool exactly when some call of it resolves to a requirement it meets |
| Scopes.HiddenAdmitsOnlyUnchecked | crates/ruprogress-mcp/src/server.rs:410-458 | a call of a hidden tool goes through exactly when its arguments resolve to no check |
| Scopes.HiddenYetAdmittedIff | crates/ruprogress-mcp/src/server.rs:410-458 | some call of a hidden tool goes through if and only if its rule is by action |
| Scopes.MoreScopesAdmitMore | crates/ruprogress-mcp/src/server.rs:410-458 | admission and visibility are monotone in the held scopes |
| Scopes.ListShowsCallable | crates/ruprogress-mcp/src/server.rs:253-286 | the list is the registered tools at increasing positions, exactly those the token can use |
| ScopeTable.TableIsWellFormed | crates/ruprogress-mcp/src/auth/scope.rs:87-224 | the shipped table has distinct actions and agrees with the hand-written issue creation case |
| ScopeTable.ServerListsExactlyCallableTools | crates/ruprogress-mcp/src/auth/scope.rs:87-432 | so listing and calling agree for the shipped table |
| ScopeTable.HiddenTimeEntryAdmitsNoAction | crates/ruprogress-mcp/src/auth/scope.rs:129-135 | a token without scopes is not shown manage_time_entry, yet its call without an action goes through |
| Version.ParseOfPrint | crates/ruprogress-mcp/src/config.rs:85-111 | parsing a printed version gives it back exactly when its parts fit 32 bits |
| Version.PrintOfParse | crates/ruprogress-mcp/src/config.rs:85-111 | printing a parse gives the string back with each part's leading zeros dropped |
| Version.AcceptsExactly | crates/ruprogress-mcp/src/config.rs:88-104 | exactly the dotted triples of 32-bit digit strings are accepted |
| Version.SameVersionIffSameCanonicalForm | crates/ruprogress-mcp/src/config.rs:85-111 | two accepted strings parse alike exactly when they differ only in leading zeros |

## Left out

- Floating-point rounding in the limiter: token counts are exact here, so a decision on the very edge of a token may
  differ from the code's `f64`.
- Which callers share a limiter key, and the HTTP middleware around `Limiter::check`.
- The width of `rps` and `burst`: they are natural numbers here, not 32-bit ones, except where a statement says
  "accepted".
- Attachments.CapIsNeverExceeded: assumes each commit's size is covered by its reservation, whoever commits;
  `Downloads.DownloadsStayWithinCap` needs no such assumption for the one caller there is.
- AttachmentStore.AttachmentStore.DownloadAndCommit: as an object it runs undisturbed; other tasks' steps between its
  chunks are in `Downloads`.
- The files behind the attachment map: directories, modification times, `dir_size`, `abort`'s and `get`'s removal of a
  directory, and every field of a stored file but its size and creation instant. A sweep may delete the directory of a
  slow download, so an entry does not imply a file.
- Overflow of the sum of committed sizes, which the cap rules out once it holds.
- TokenCacheRuns.HitsAreRecentIntrospections: assumes the token digest is injective on the tokens involved; SHA-256 is
  not part of this model.
- TokenCacheRuns.PurgeIsUndoneIff: the witness assumes clocks not at the end of their range.
- The parsing of introspection responses (scopes arrive as a set), and the mapping of client errors to outages.
- Pagination.HonestServer: assumes the list is not longer than `u64::MAX` and does not change during the walk.
- HTTP, TLS, redirects, body size limits, JSON decoding and the parsing of a `Retry-After` header: an outcome or a
  duration stands for them. Saturation of `Duration` is not modelled.
- Retry.RetryBudget: a sleep takes exactly as long as asked.
- Retry.EndsWithinTwice: assumes the HTTP client enforces its timeout on each attempt exactly.
- The probe itself and its timeout: any result stands for them. Fairness of the cache lock is not modelled.
- Unicode normalisation of field names: the normaliser is an arbitrary function on strings.
- Parsing Redmine's required-field errors, the fetch of definitions during recovery, and all error texts.
- Removal of tools by read-only mode or missing plugins: any list of registered tools is allowed.
- Concurrency inside a tool call, tracing, configuration parsing, discovery documents and rendering, which would add only
  one-branch facts.
