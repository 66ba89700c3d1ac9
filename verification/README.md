# Verified models of the permit back end

This project models the parts of the Ruxsatnoma back end whose comments and documentation
promise something hard: the in-memory rate limiter, the idempotency protocol with the request
transaction around it, gap-free public numbers, the settings cache, the organization import, the
transliteration migration, the refund migration, text search, the change-based test selection,
placeholder filling and the business calendar. `dafny verify dfyconfig.toml` checks everything.

How each part is modelled:

* **Rate limiter** (`RateLimitSpec`, `RateLimitTheorems`, `RateLimiter`). One call of `consume` is
  one step, since nothing in it is awaited after the setting is read. The class `Limiter` changes
  its bucket map, per-scope counts and sweep time in place and is proved to take exactly the steps
  of the relation `ConsumeStep`; the promises are then theorems about all runs of that relation.
  The clock reading and the limit are inputs of each call, the idle time, the cap and the sweep
  interval stay symbolic, and arithmetic is over the reals. The seconds a bucket must be idle are
  not free: the sweep is lossless if and only if they are 60 or more (`SweepIsLossless`,
  `ShortIdleIsLossy`).
* **Idempotency and the request transaction** (`IdempotencyProtocol`, `IdempotencyTheorems`,
  `IdempotencyReplay`). Each SQL statement and each commit is one step, each request a program
  counter, and any number of requests interleave on one marker. The guarantees hold of every
  *careful* run: a re-claim, like the nightly purge, deletes only an in-flight marker whose request
  is over. Each step that is not careful breaks them: the re-claim's DELETE names the marker by key
  and user only and the purge by its age only, so either can take the marker of a request that is
  still running, or one that already holds a response (`CarelessReclaim`, `CarelessPurge`,
  `OverlappingReclaimsCommitTwice`). An HTTPException raised by a handler is settled by nobody; its
  marker stays in flight.
* **Public numbers** (`PublicNumbers`). Transactions interleave statement by statement; a row lock
  and an uncommitted insert make rivals wait until commit or rollback.
* **Settings** (`SettingsStore`, `SettingsCache`). A read that misses the cache can be overtaken by
  writes, commits and invalidations between its row read and its cache write, and `set_setting`
  only flushes: its session reads the flushed row, the others the committed one. After an
  invalidation every later get is as new as what was committed when it began if and only if the
  write was committed before the invalidation and no older read is in flight
  (`InvalidationIsSeenExactly`). Both writers in the repository invalidate before they commit
  (`app/modules/payments/payme.py:614-615`, `app/modules/admin/service.py:536-537`), so another
  session's get in between leaves the replaced value in the cache for up to a minute
  (`InvalidatingBeforeCommitIsStale`); and a get in the writing session can cache a value that is
  then rolled back (`RolledBackValueIsServed`).
* **Organization import** (`OrganizationImport`). The kind table and the reference catalogues are
  parameters; the tree may be anything a tree may be.
* **Migration 0032** (`UzbekLatin`, `NameBackfill`). Loops over letters and children, proved against
  functions on the text and on the JSON tree. What the tree walkers promise holds of any
  transliteration. The downgrade restores a value exactly when each name with Cyrillic text lacked
  `uz_latn` or had a non-blank text there other than the transliteration (`RoundTrip`).
* **Migration 0046** (`RefundComponents`). The documentation calls the fold exact; no constraint
  keeps the legacy amounts from being negative, and the fold is exact only when neither part, the
  budget amount and the sum of the two others, is (`FoldKeepsTotal`, `NegativeAmountBreaksFold`).
  Each result about the round trip says what happens to a refund with a negative part too. A
  returned refund of zero has no components afterwards and so fails the tightened trigger when it
  is next updated (`ReturnedMeetsStrictTrigger`).
* **Text search** (`TextSearch`). What PostgreSQL does to both sides is a folding parameter that
  keeps the metacharacters and whose output it would fold no further. On every row the filter then
  means "contains" if and only if none of the needle's other characters folds into a metacharacter
  (`LiteralSearchExactly`): escaping comes before folding, so a character such as a full-width
  percent sign, where `unaccent` has a rule for it, becomes a wildcard
  (`FullWidthPercentFindsAll`). The first half needs no more than that metacharacters are kept; for
  a folding that would fold its output again the second half fails
  (`UnsettledFoldingHidesWildcard`).
* **Test selection** (`ChangedTests`), **filling** (`PlaceholderFill`), **calendar**
  (`BusinessTime`): the loops as methods, the promises as lemmas about what they compute.

`PythonText` holds the string operations of Python that several parts need, `Collections` facts
about sets and sequences, `Wrappers` the option and result types.

## Model

| member | source | states |
|---|---|---|
| RateLimiter.Limiter.Drop | app/core/ratelimit.py:85-94 | removes one bucket and keeps the per-scope counts equal to the buckets, with no zero entries |
| RateLimiter.CountsAfterRemoval | app/core/ratelimit.py:85-94 | counts decremented with zero entries deleted still count the remaining buckets of every scope |
| RateLimiter.CountsAfterAddition | app/core/ratelimit.py:166-170 | counts incremented with a new bucket still count the buckets of every scope |
| RateLimiter.CountsShowOverCap | app/core/ratelimit.py:147-149 | the counts show an overflow if and only if some scope really holds too many buckets |
| RateLimiter.Limiter.SomeScopeOverCap | app/core/ratelimit.py:147-149 | answers from the counts alone whether any scope is over its cap |
| RateLimiter.Limiter.DropIdle | app/core/ratelimit.py:128-131 | the TTL pass removes exactly the buckets idle for the idle time, never the caller's |
| RateLimiter.DroppedPrefixTrims | app/core/ratelimit.py:139-144 | dropping the first keys by age takes the least recently touched ones of that scope, down to the cap, and never the caller's |
| RateLimiter.Limiter.TrimScope | app/core/ratelimit.py:139-144 | one scope cut to its cap by dropping its oldest buckets; the other scopes untouched |
| RateLimiter.Limiter.TrimAll | app/core/ratelimit.py:136-144 | after the cap pass every overflowing scope is at its cap and every other scope is as it was |
| RateLimiter.Limiter.Sweep | app/core/ratelimit.py:97-144 | a throttled sweep is a step of the relation, and the caller's bucket survives it unchanged |
| RateLimiter.Limiter.Consume | app/core/ratelimit.py:152-184 | one call changes the state and answers as `ConsumeStep` says: refill, sweep, then refuse with the hint or charge one token |
| RateLimitSpec.ReachableInvariant | app/core/ratelimit.py:162-184 | in every reachable state each scope is within its cap and no bucket is negative, and the caller's bucket has survived its own call, charged |
| RateLimitTheorems.CallIsExact | app/core/ratelimit.py:161-184 | with the bucket's tokens plus a sixtieth of max(1, setting) a second since it was last touched, or max(1, setting) for a new one, a call is admitted if and only if that is at least one, the hint is the least whole number of seconds after which it would be, and the bucket keeps the rest up to the limit |
| RateLimitTheorems.BurstIsAdmittedUpToLimit | app/core/ratelimit.py:162-184 | a key without a bucket that calls n times at one clock reading is admitted on exactly its first max(1, setting) calls, and then told to wait the least whole number of seconds that makes one token |
| RateLimitTheorems.SweepLeavesNoIdle | app/core/ratelimit.py:124-131 | a call at least the sweep interval after the last sweep leaves no idle bucket but its own |
| RateLimitTheorems.OnlyIdleOrOldestGo | app/core/ratelimit.py:128-144 | a bucket that a call removes is not the caller's, and was idle long enough; or its scope held more than the cap, now holds exactly the cap, and kept only buckets touched no earlier besides the caller's |
| RateLimitTheorems.IdleBucketIsFull | app/core/ratelimit.py:42-45 | a bucket idle for a minute is full whatever its limit, so recreating it gives the same state |
| RateLimitTheorems.OtherScopeStep | app/core/ratelimit.py:102-107 | a call of one scope leaves the recently touched buckets of every other scope alone, sweep included |
| RateLimitTheorems.OwnScopeStep | app/core/ratelimit.py:152-184 | a call is one step, verdict included, of a machine that sees only the scope's recently touched buckets and trims at once |
| RateLimitTheorems.ScopesAreIsolated | app/core/ratelimit.py:52-58 | under a strictly increasing clock a scope's results, retry hints included, equal those of a process that got this scope's requests alone |
| RateLimitTheorems.SweepIsLossless | app/core/ratelimit.py:42-45 | with an idle time of 60 seconds or more and scopes within their caps, every answer equals that of a limiter that never deletes, even if the limit changes |
| RateLimitSpec.ProductionIsLossless | app/core/ratelimit.py:72-74 | the shipped constants are ones the lossless results cover |
| RateLimitTheorems.ShortIdleIsLossy | app/core/ratelimit.py:42-45 | for every shorter idle time, whatever the sweep interval, some run answers otherwise than the limiter that never deletes |
| RateLimitTheorems.UncrowdedIsNeverTrimmed | app/core/ratelimit.py:46-50 | where no scope has more recent keys than its cap, the cap pass drops no live bucket |
| RateLimitTheorems.RateBound | app/core/ratelimit.py:162-184 | a key the cap never trims, whose calls read settings with one value of max(1, setting), gets at most that limit + T * limit / 60 admissions in any T seconds |
| RateLimitTheorems.RetryHintIsExact | app/core/ratelimit.py:181-183 | waiting a whole number of seconds is enough if and only if it is at least the hint |
| RateLimitTheorems.RefusedCallerIsLaterAdmitted | app/core/ratelimit.py:172-184 | a refused caller that stays away for the hinted time is then admitted, whatever the others did, unless the limit was lowered |
| IdempotencyTheorems.StepKeepsInvariant | app/core/idempotency.py:58-102 | every careful step of begin, save, commit, settling or crash keeps the protocol's invariant |
| IdempotencyTheorems.HandlersAreExclusive | app/core/idempotency.py:67-78 | in every careful run at most one handler is live, under the marker's fingerprint |
| IdempotencyTheorems.EffectsHappenAtMostOnce | app/core/idempotency.py:67-102 | however many duplicates race, one handler transaction commits at most, and then none is live again |
| IdempotencyTheorems.ReplaysAreSaved | app/core/idempotency.py:89-92 | a request that ran no handler was told a conflict or a response committed earlier for its own fingerprint |
| IdempotencyTheorems.OnlyTheFirstRuns | app/core/idempotency.py:67-102 | until something deletes the marker, only the request that inserted it runs: no duplicate and no other fingerprint ever does |
| IdempotencyTheorems.ClosedWithACommit | app/core/idempotency.py:42-48 | what later requests replay is what a commit put into the marker, under the saver's fingerprint |
| IdempotencyTheorems.SuccessCommitsTogether | app/core/deps.py:31-35 | effects and the saved response become visible in one commit, before the response goes out |
| IdempotencyTheorems.FailureSettlesTheMarker | app/main.py:164-177 | a settled refusal stores exactly the response to be sent, a server failure leaves no marker, and neither has effects |
| IdempotencyTheorems.OneOutcome | app/main.py:239-304 | a finished request that ran ended in one of: effects committed and the marker holding the sent response; no effects and the marker holding the sent refusal; no effects, a 500 and no marker of its own; no effects and an unsettled HTTP error |
| IdempotencyTheorems.ReachableStillStored | app/core/idempotency.py:42-48 | in every careful run the marker still holds, under its own request, what a committed handler saved or an answered refusal was closed with |
| IdempotencyReplay.LaterRequestsAreReplayed | app/core/idempotency.py:83-92 | once a request that ran is finished and its response stored, every request that had not read the marker by then, whenever it arrives and whatever the others do, is sent that same response if its fingerprint is the same and 409 ERR-SYS-005 if not |
| IdempotencyReplay.RetryIsReplayed | app/core/idempotency.py:67-92 | a retry that arrives then waits for nobody: in four enabled steps it is sent that answer, with marker and effects as they were |
| IdempotencyReplay.ReadAnswerIsSent | app/core/idempotency.py:83-102 | in every run a request that reads another's marker is sent the response found there if the fingerprints agree, and a conflict if they do not or the marker is in flight and at most 300 seconds old |
| IdempotencyReplay.LastDecisionIsSent | app/main.py:239-304 | in every run a request that ran its handler is sent what it decided last: the saved response, the refusal or HTTP error it raised, or 500 ERR-SYS-001 after a bug or a failed commit |
| IdempotencyReplay.InFlightIsRespected | app/core/idempotency.py:89-102 | a duplicate that reads a marker in flight is refused up to 300 seconds after its insert and re-claims it from then on; another fingerprint is refused at any time |
| IdempotencyReplay.SomeoneCanMove | app/core/idempotency.py:67-102 | nobody is stuck: in every careful run an unfinished request, or the one whose uncommitted marker it waits for, can take its next step |
| IdempotencyReplay.HandlerIsNotBlocked | app/core/idempotency.py:42-48 | in every careful run a live handler can save and return, or raise, without waiting |
| IdempotencyTheorems.CommitComesBeforeResponse | app/core/deps.py:57-99 | in every run, re-claims and purges included, nothing below 400 is sent before its transaction is settled and nothing is committed after a rollback |
| IdempotencyTheorems.CarelessReclaim | app/core/idempotency.py:93-101 | whenever a re-claim deletes a marker that is not abandoned, it can go on to run its handler beside the live owner or after a committed response |
| IdempotencyTheorems.CarelessPurge | app/workers/jobs.py:74-78 | whenever the purge deletes a marker that is not abandoned, a request that arrives afterwards can run beside the live owner or after a committed response |
| IdempotencyTheorems.OverlappingReclaimsCommitTwice | app/core/idempotency.py:93-101 | a schedule in which two overlapping re-claims of one dead request commit its effects twice |
| PublicNumbers.TextIsInjective | app/core/numbers.py:59 | the printed number determines prefix, year and value, whatever the prefix contains |
| PublicNumbers.TextReadsBack | app/core/numbers.py:59 | the printed text reads as prefix, year and a number of six digits or more exactly when these are its own: a leading zero stands only to fill six digits |
| PublicNumbers.ScopeIsInjective | app/core/numbers.py:38 | two series never share a counter row |
| PublicNumbers.SixDigits | app/core/numbers.py:59 | the value is padded to six digits and takes more exactly from a million on |
| PublicNumbers.NumberingHasNoGaps | app/core/numbers.py:38-59 | over all interleavings the committed numbers of a series are 1, 2, ... up to the counter, in commit order, rollbacks and rolled-back first inserts included |
| PublicNumbers.PrintedNumbersHaveNoGaps | app/core/numbers.py:38-59 | over all interleavings the i-th committed number of a series, as printed, reads i |
| PublicNumbers.CallDrawsNext | app/core/numbers.py:38-59 | a call that nobody holds up succeeds, and returns the number one above the committed ones of the series and the transaction's own; committing then issues exactly what was drawn |
| PublicNumbers.CounterRowExists | app/core/numbers.py:42-57 | after its insert a transaction always finds the counter row, as the assertion claims |
| PublicNumbers.CommittedNumbersAreDistinct | app/core/numbers.py:38-59 | no two committed numbers print the same, across all prefixes and years |
| PublicNumbers.DrawnNumbersAreHeldAlone | app/core/numbers.py:51-58 | a number drawn by an open transaction is neither committed nor drawn by another |
| SettingsStore.CoerceIsIdempotent | app/core/settings_store.py:525-565 | what validation returns passes validation unchanged |
| SettingsStore.CoerceIsExact | app/core/settings_store.py:525-565 | a raw value is accepted exactly for a positive integer that it is, is cut to or spells out; for the boolean it is; or for its text, stripped if the setting says so, not blank unless allowed and not too long |
| SettingsStore.RefusalIsExact | app/core/settings_store.py:532-564 | which refusal is given: an integer that is not positive, a text that is only too long, or the wrong kind |
| SettingsStore.LegalValuesAreFixed | app/core/settings_store.py:525-565 | validation returns legal values only, and the values it leaves unchanged are exactly the legal ones |
| SettingsStore.NumericTextIsAccepted | app/core/settings_store.py:528-547 | a positive number written out as text is accepted for the number |
| SettingsCache.ReturnedValuesAreRecent | app/core/settings_store.py:568-588 | in every interleaving of gets, flushes, commits, rollbacks and invalidations a returned value is the one some row is accepted for, or the default if there is none or an unacceptable one, and that row was read less than 60 seconds before the call, or later, and was then committed or flushed by the reading session |
| SettingsCache.UnwrittenSettingIsServed | app/core/settings_store.py:577-588 | without writes every get returns the default if there is no row or one that validation refuses, and otherwise the value it is accepted for |
| SettingsCache.MissReadsTheRow | app/core/settings_store.py:573-588 | a get that finds no live entry returns what the row its session sees is served as, and caches that for 60 seconds |
| SettingsCache.HitReturnsTheEntry | app/core/settings_store.py:574-576 | until it expires, is invalidated or another read finishes, a cached reading is what every get returns at once |
| SettingsCache.NewestIsSeenExactly | app/core/settings_store.py:517-522 | after an invalidation the sessions that see the newest row are served it at once if and only if no read of another row is in flight |
| SettingsCache.InvalidationIsSeenExactly | app/core/settings_store.py:517-522 | after an invalidation every later get returns a row at least as new as the one committed when it began if and only if the write was committed first and no older read is in flight |
| SettingsCache.SetThenGet | app/core/settings_store.py:609-630 | set, commit, invalidate, with any reads in between: with no older read in flight at the invalidation, every later get of any session returns the coerced value until the next write |
| SettingsCache.SetThenGetInOwnSession | app/core/settings_store.py:609-630 | set, invalidate, with any reads in between: until the commit the writing session's gets return the coerced value, if no read of another row is in flight and no other session reads |
| SettingsCache.CommitAfterInvalidateIsStale | app/core/settings_store.py:573-588 | whenever the commit follows the invalidation, another session's get in between makes gets that begin after the commit return the old version |
| SettingsCache.InvalidatingBeforeCommitIsStale | app/modules/payments/payme.py:614-615 | the same from the set on, in the order both writers use, with no read in flight: the get returns the value that was replaced |
| SettingsCache.OnlyCommittedIsServed | app/core/settings_store.py:573-588 | as long as no get misses the cache in a session with an uncommitted write, only committed rows are returned |
| SettingsCache.RolledBackValueIsServed | app/core/settings_store.py:573-588 | each time one does, the row can be rolled back and still be served to another session |
| OrganizationImport.ImportKeepsTree | app/seed/__init__.py:161-262 | every accepted file leaves a tree: one root at most, every organization reaching it without a cycle through allowed kind pairs |
| OrganizationImport.AcceptedExactly | app/seed/__init__.py:161-262 | over a tree a row is accepted exactly when its kind is not changed, its parent, if named, is stored and active, its contents are well formed and what it leaves is a tree |
| OrganizationImport.CycleIsExact | app/seed/__init__.py:185-193 | in any directory a row is refused as a cycle exactly when its organization is its new parent or stands above it at any distance |
| OrganizationImport.ImportWritesExactly | app/seed/__init__.py:214-262 | an accepted file with distinct codes leaves every organization it does not name as it was, and of the others: name and parent the row's; stir, region, district, requisites and GIS flag kept when the key is absent, cleared by null where null is allowed, and the row's value otherwise; and the starting values of a new one |
| OrganizationImport.PathToRoot | app/seed/__init__.py:195-212 | in a tree each organization has a finite path of allowed parents that ends at the root kind |
| OrganizationImport.ParentIsNotBelow | app/seed/__init__.py:185-193 | in a tree the stored parent is never below its child, so re-applying it passes the cycle check |
| OrganizationImport.ReimportChangesNothing | app/seed/__init__.py:161-262 | a file with distinct codes that was accepted is accepted again and changes nothing |
| OrganizationImport.ImportOnlyAdds | app/seed/__init__.py:161-262 | an accepted file deletes no organization and changes no kind and no archival, and adds only the codes it names |
| OrganizationImport.Database.SeedOrganizations | app/seed/__init__.py:161-270 | the loop applies the file row by row, reports the counts of created and updated rows, and leaves the directory alone when a row is refused |
| UzbekLatin.Transliterate | migrations/versions/0032_uz_latn_backfill.py:122-160 | the loop writes for each letter what its place and its neighbours' case call for |
| UzbekLatin.LetterInPlace | migrations/versions/0032_uz_latn_backfill.py:137-159 | "е" is "ye" exactly where no letter precedes it, every other letter has the table's form, a capital makes its first letter a capital, and the second too exactly when a capital stands beside it |
| UzbekLatin.NothingMappedIsLeft | migrations/versions/0032_uz_latn_backfill.py:122-160 | no letter of the table is left and the text at most doubles |
| UzbekLatin.TransliterationIsIdempotent | migrations/versions/0032_uz_latn_backfill.py:122-160 | transliterating twice is transliterating once |
| UzbekLatin.SplitsAtNonLetters | migrations/versions/0032_uz_latn_backfill.py:141-159 | a text can be transliterated in parts wherever a non-letter stands at the seam |
| UzbekLatin.CapsRunStaysCapital | migrations/versions/0032_uz_latn_backfill.py:157-159 | a capital of the table beside another capital yields no small Latin letter |
| NameBackfill.BackfillValue | migrations/versions/0032_uz_latn_backfill.py:203-230 | the recursive walk computes the backfilled value and whether a name was filled anywhere in it |
| NameBackfill.RevertValue | migrations/versions/0032_uz_latn_backfill.py:233-266 | the downgrade's walk computes the stripped value and whether a name was stripped anywhere in it |
| NameBackfill.UnchangedByBackfill | migrations/versions/0032_uz_latn_backfill.py:203-230 | a false flag means the value is the same |
| NameBackfill.UnchangedByRevert | migrations/versions/0032_uz_latn_backfill.py:233-266 | a false flag of the downgrade means the value is the same |
| NameBackfill.BackfillFillsNames | migrations/versions/0032_uz_latn_backfill.py:203-230 | after the upgrade, at any depth, every name with a Cyrillic text holds its own non-blank `uz_latn`, or the transliteration where it had none, and nothing else differs |
| NameBackfill.RevertStripsOwn | migrations/versions/0032_uz_latn_backfill.py:233-266 | the downgrade removes, at any depth, exactly each `uz_latn` that is the transliteration of the Cyrillic text beside it |
| NameBackfill.RoundTrip | migrations/versions/0032_uz_latn_backfill.py:203-266 | the downgrade restores a value if and only if every name with Cyrillic text lacked `uz_latn` or had a non-blank text there other than the transliteration |
| NameBackfill.BackfillIsIdempotent | migrations/versions/0032_uz_latn_backfill.py:203-230 | backfilling twice is backfilling once |
| NameBackfill.BackfillOnlyWritesLatin | migrations/versions/0032_uz_latn_backfill.py:203-230 | nothing but the `uz_latn` of names with Cyrillic text changes, at any depth |
| NameBackfill.BackfillKeepsLatinText | migrations/versions/0032_uz_latn_backfill.py:203-230 | a non-blank `uz_latn` is never overwritten, at any depth |
| NameBackfill.RevertOnlyStripsLatin | migrations/versions/0032_uz_latn_backfill.py:233-266 | the downgrade, too, changes nothing but the `uz_latn` of names with Cyrillic text |
| RefundComponents.Ledger.Upgrade | migrations/versions/0046_refund_components_rewrite.py:93-209 | succeeds unless a budget component is already there, appends to each refund exactly its backfilled components, drops the columns and rewrites the allocations |
| RefundComponents.Ledger.Downgrade | migrations/versions/0046_refund_components_rewrite.py:212-418 | succeeds if and only if every refund goes back through trigger and CHECK, and then reads the columns back and empties the components |
| RefundComponents.ClashIsExact | migrations/versions/0046_refund_components_rewrite.py:96-116 | the upgrade fails exactly where its rows would give a refund two components of one recipient |
| RefundComponents.FoldBySource | migrations/versions/0046_refund_components_rewrite.py:96-145 | a positive budget amount goes to the budget recipient, a positive sum of the other two to no named one, and nothing to anybody else |
| RefundComponents.ReadBackBySource | migrations/versions/0046_refund_components_rewrite.py:375-386 | the downgrade gives each amount back to the column of its source, and keeps status and final amount |
| RefundComponents.FoldKeepsTotal | migrations/versions/0046_refund_components_rewrite.py:96-145 | the components sum to the legacy total if and only if neither the budget amount nor the sum of the other two is negative |
| RefundComponents.NegativeAmountBreaksFold | migrations/versions/0046_refund_components_rewrite.py:96-145 | a refund the old CHECK accepts whose components do not sum to its final amount |
| RefundComponents.ReturnedMeetsStrictTrigger | migrations/versions/0046_refund_components_rewrite.py:177-203 | of the returned refunds the old CHECK let through, exactly those with a positive final amount and no negative part satisfy the tightened trigger |
| RefundComponents.UpThenDown | migrations/versions/0046_refund_components_rewrite.py:96-145 | after up and down a refund goes back exactly when its final amount, if it is returned, is what the fold kept, which without a negative part is the old CHECK; its total survives exactly when no part was negative; and going up again makes the same components |
| RefundComponents.LedgerRoundTrip | migrations/versions/0046_refund_components_rewrite.py:93-418 | what the upgrade leaves of a database without components is accepted by the downgrade exactly when the final amount of every returned refund is what the fold kept of it; status and final amount are then as before, each total exactly where no part was negative, and a second upgrade makes the same components |
| RefundComponents.RowComesBack | migrations/versions/0046_refund_components_rewrite.py:375-386 | the row itself is restored exactly when `other` was NULL and each of the two other amounts NULL or positive |
| RefundComponents.DowngradeKeepsTotal | migrations/versions/0046_refund_components_rewrite.py:375-418 | the downgrade keeps a refund's total if and only if no other receiver gave anything back |
| RefundComponents.DowngradeAccepts | migrations/versions/0046_refund_components_rewrite.py:274-402 | a ledger goes down if and only if for every returned refund the components add up to the final amount and none is another receiver's, or the final amount is zero and all of them are |
| RefundComponents.AllocationsComeBack | migrations/versions/0046_refund_components_rewrite.py:149-156 | the upgrade turns each budget share into a receiver's share of the budget recipient and leaves the others; allocations survive up and down except a receiver's share already paid to that recipient or a budget share with a recipient |
| TextSearch.EscapedIsLiteral | app/core/textsearch.py:19 | the three replacements in a row escape every metacharacter once and nothing else |
| TextSearch.LikeMeansContains | app/core/textsearch.py:18-21 | the escaped needle between two percent signs matches exactly the texts that contain the needle |
| TextSearch.FoldCommutes | app/core/textsearch.py:19-21 | folding after escaping is escaping after folding, when no character folds into a metacharacter |
| TextSearch.FilterMeansContains | app/core/textsearch.py:18-21 | a needle no character of which folds into a metacharacter finds a row if and only if one of its columns, folded, contains the folded needle; NULL columns never match |
| TextSearch.LiteralSearchExactly | app/core/textsearch.py:18-21 | when folding leaves its own output alone, the filter means "contains" on every row if and only if no character of the needle folds into a metacharacter |
| TextSearch.UnsettledFoldingHidesWildcard | app/core/textsearch.py:19-21 | a folding that does not leave its output alone, and a needle that folds into a metacharacter and is still found literally on every row |
| TextSearch.FullWidthPercentFindsAll | app/core/textsearch.py:19-21 | a folding and a needle that finds every text, one that does not contain it included |
| ChangedTests.WithImporters | scripts/changed_tests.py:90-98 | the worklist ends with the closure of its seeds under the import graph |
| ChangedTests.ClosureIsLeast | scripts/changed_tests.py:90-98 | the closure lies in every importer-closed superset of the seeds |
| ChangedTests.Select | scripts/changed_tests.py:101-130 | the selection depends on the set of changed files only, not on their order or repetition |
| ChangedTests.RuleByPath | scripts/changed_tests.py:104-116 | the rule of a changed file by where it lies: ignored, below `app/modules/<m>/`, a Python file below `tests/` that is still there, and otherwise none |
| ChangedTests.TargetByName | scripts/changed_tests.py:118-123 | a `conftest.py` adds its directory, a file named `test_...` itself, any other nothing |
| ChangedTests.SelectionByPath | scripts/changed_tests.py:101-130 | `ALL` if and only if some changed file fits no rule; else nothing if nothing is called for, and otherwise exactly the static guards and whatever is called for and not under a package that is |
| ChangedTests.KeptCoversAll | scripts/changed_tests.py:127-129 | dropping targets under a selected package loses none, however packages nest |
| ChangedTests.KeptIsIrredundant | scripts/changed_tests.py:127-129 | no kept target lies under another |
| ChangedTests.EveryTestIsCovered | scripts/changed_tests.py:118-130 | every test file and conftest package of the closure and the tests of every changed module are printed or lie under a printed package, and the five static guards are printed |
| ChangedTests.MoreChangesRunMore | scripts/changed_tests.py:101-130 | changing more files runs everything the fewer files ran, or everything |
| PlaceholderFill.SegmentsAreSource | app/core/pdf.py:54 | cutting a layout into characters and placeholders loses nothing |
| PlaceholderFill.HolesAreIndependent | app/core/pdf.py:54 | a placeholder is found wherever it stands, and what is around it is cut as if it were alone |
| PlaceholderFill.Fill | app/core/pdf.py:219-247 | one pass computes the filled text, or the set of offenders |
| PlaceholderFill.SucceedsIffAllBound | app/core/pdf.py:233-246 | filling succeeds if and only if whatever stands between double braces anywhere in the layout is a valid name with a fragment or a value other than None, and otherwise reports exactly the names, or whole placeholders, that are not |
| PlaceholderFill.PlainTextStays | app/core/pdf.py:242-247 | a layout with nothing between double braces is printed as it is |
| PlaceholderFill.FillIsSinglePass | app/core/pdf.py:226-229 | a filling goes in as it is and is never scanned again: the result is left part, filling, right part |
| PlaceholderFill.FragmentStandsRaw | app/core/pdf.py:233-236 | a fragment stands raw and wins over a value of the same name |
| PlaceholderFill.ValueReadsBack | app/core/pdf.py:240 | decoding the entities of a value's span gives the value back |
| PlaceholderFill.EscapeHasNoMarkup | app/core/pdf.py:240 | an escaped value opens no tag and closes no attribute |
| BusinessTime.AddWorkingDays | app/core/time.py:62-80 | the loop ends at the least date with that many working days after the start, and at the start for none |
| BusinessTime.NthIsLeast | app/core/time.py:62-80 | the formula of whole weeks, remainder and week-end gives that least date for every start and count |
| BusinessTime.AddingInTwoGoes | app/core/time.py:62-80 | adding in two goes is adding at once |
| BusinessTime.NthIsMonotone | app/core/time.py:62-80 | a later start or more days never give an earlier date, and more days give a later one |
| BusinessTime.QuietExactly | app/core/time.py:42-47 | for whole hours, quiet are exactly the hours of UTC+5 from the start on, round the clock, before the end: none when the two are equal |
| BusinessTime.WindowEndsThen | app/core/time.py:32-59 | from a quiet instant it stays quiet up to the computed end and not at it, the first such hour after the instant, whether or not the window wraps midnight |

## Left out

- Rate limiter: floating-point rounding is not modelled, and the order in which the cap pass drops equally old buckets is left open, so cross-scope isolation is stated for clocks that move between calls.
- Rate limiter: a bucket is a value in the map, not a shared object; `consume` charges it in the map, which is the same bucket because the sweep keeps it.
- Rate limiter: several worker processes, each with its own map, and `reset`.
- Idempotency: modelled on values as a state machine, one key and user at a time, statements as steps; SQLAlchemy sessions, the identity map, hashing of the fingerprint and work committed by other dependencies in the same session are not part of it.
- Idempotency: the commit that `get_db` itself makes after a response of 400 or more succeeds unless the process dies.
- Idempotency: a handler saves what it returns, and refuses by raising; a handler that returns without saving is not modelled.
- IdempotencyTheorems.OneOutcome: says nothing about the marker of a request that ended in an HTTPException, because nothing in the source settles it.
- Public numbers and settings: modelled on values as state machines, so aliasing of rows and a session's identity map are not captured (`db.get` is a plain read); deadlock between transactions that draw from several series is not excluded.
- Settings: `int` of text accepts ASCII digits with underscores and a sign, not the other Unicode digits; infinities and NaN are not values; the unique violation of a rival first insert, which ends in a rollback; the registry of keys and the audit log.
- Organization import: codes name organizations and cannot repeat; type checks of `name`, `requisites` and `gis_enabled` are inputs; the district import, the audit entry and file loading.
- Transliteration: `isalpha` and `isupper` are parameters that must agree with the table on the table's letters; the list of tables and columns and the row updates of the migration.
- Backfill: the key order of JSON objects, which jsonb does not keep.
- Refunds: identifiers of component rows, log lines, column and constraint DDL as such; amounts are integers of the smallest unit.
- TextSearch.FilterMeansContains: folding works character by character and keeps the metacharacters; multi-character rules of `unaccent` and folding of NULL are not modelled.
- Test selection: git, parsing imports, and sorting and joining the printed paths.
- Filling: everything of the renderer after `fill`; a value is the text `str` makes of it.
- BusinessTime.AddWorkingDays: the last representable date, where the source raises, is not modelled; Tashkent is UTC+5 throughout; `tashkent_day_start` and `business_today` are left out.
- HTTP routing, cookies, logging, configuration, object storage, PDF rendering, schema-only migrations, the application and permit workflows and the scheduled jobs: no algorithm in the modelled files, or not part of this model.
