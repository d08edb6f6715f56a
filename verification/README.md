# Kaleta: verified models

Kaleta is a self-hosted household finance application. This project models the parts of it where state,
time and concurrency meet, and proves what they promise over every input and every run. Each module keeps
the source's form: objects with mutable state are classes whose methods are tied to functions on values,
and the properties are lemmas about those functions and about runs of them.

| file | models |
|---|---|
| `AttemptStores.dfy`, `LoginRateLimit.dfy` | the Redis commands, the two attempt stores, `LoginRateLimiter`, `SendThrottle` |
| `SlidingWindow.dfy`, `RedisRefinement.dfy`, `Lockouts.dfy` | the counting bound, when the two stores agree, and what thresholds, locks and clears mean to later calls |
| `Replicas.dfy`, `ThrottleReplicas.dfy` | `record_failure` and `allow` interleaved by replicas, one Redis command at a time |
| `OrderedDicts.dfy`, `KeyRing.dfy`, `KeyRingLaws.dfy`, `KeyRingOrder.dfy` | insertion-ordered dicts, member references, the key ring, what each call means to later reads, and which unlock of a member it answers |
| `EncryptedText.dfy` | the encrypted column format and the pass that re-keys a household |
| `BlindIndex.dfy`, `PayeeIdentity.dfy` | blind indexes, the flush hook, payee spellings |
| `Sessions.dfy`, `SessionRotation.dfy`, `SessionExpiry.dfy` | the session bucket, id rotation over runs, TTL and idle expiry |
| `RevocationCache.dfy` | the revocation watermark cache under interleaved awaits |
| `Seeders.dfy`, `SeedFeatures.dfy` | the seeder registry's closures and seeding under foreign keys |
| `SessionRingBuffer.dfy` | the per-session log ring |
| `BalanceMigration.dfy` | revision c4d5e6f7a8b9 of the ledger |
| `Weeks.dfy` | the Gregorian calendar, ISO week numbers, week buckets |

Conventions. Times and floats are `real`; database amounts are integers of hundredths. Clocks, random
nonces and ids are parameters, with freshness stated where the code relies on it. AES-GCM, UTF-8, HMAC,
HKDF, case folding and Unicode normalisation are function-valued parameters constrained only by the law each
result names, so every theorem holds for any functions that obey the law. An exception is `Err`, `Raised`
or `None`.

Where code and documentation differ, the model follows the code:

- `LoginRateLimiter` says that two replicas locking at once leave one lock "ending a moment later at most".
  The later writer wins with the time it read first, so the lock can also end earlier, for every threshold and any
  two replicas (`Replicas.LockEndCanMoveBack`). Its end never moves back exactly when there is one replica at most
  (`Replicas.LockNeverMovesBackIff`), and one write moves it back exactly when the writer read a time before the
  stored end less a window (`Replicas.WriteMovesBackIff`).
- `SendThrottle` says that with Redis its interval holds across replicas. `allow` reads and then writes, and
  R replicas together can send (1 + ... + R) + R mails in one interval, never more (`ThrottleReplicas.MailsPerInterval`,
  `ThrottleReplicas.MailBoundsAreReached`). While checks are made at the time their calls read, the times read are an
  interval apart along every run exactly when there is one replica at most, and while calls take no time at all, so are
  the mails (`ThrottleReplicas.MailsAreSpacedIff`). One replica whose check or write stalls already breaks it
  (`ThrottleReplicas.StalledCheckSendsTwice`, `ThrottleReplicas.StalledWriteSendsLate`).
- `RevocationCache` says a bump in this process is seen at once after `forget`. That holds exactly when no
  younger-than-TTL load that read before the bump is still to store (`RevocationRuns.ForgetShowsBumpIff`), and a run
  from an empty cache gets there (`RevocationRuns.LateStoreHidesBump`).
- `exact_index` says its prefix keeps it apart from both other kinds of index. It is apart from the digit
  index always, from the normalised one except when the normalised text itself begins with "="
  (`BlindIndexes.KindsMeetIff`, with an input in `BlindIndexes.NormalisedMeetsExact`).
- `RedisStore` and `MemoryStore` are offered as interchangeable. For a limiter they are, exactly for whole-second
  windows and key sets in which no key is another plus ":lock" (`RedisRefinement.RedisAgreesIff`); for a throttle
  always (`RedisRefinement.ThrottlesAlwaysAgree`).

Lazy eviction in `KeyRing` can be told in two ways: by a move onto a key that is not fresh (`KeyRings.MoveDisagreesIff`,
`KeyRings.StaleMoveIsVisible`), and by a put over an expired entry, which decides which of a member's unlocks `for_member`
answers (`KeyRingOrders.PutDisagreesIff`, `KeyRingOrders.ReunlockShowsFreeze`).

## Model

| member | source | states |
|---|---|---|
| `AttemptStores.MemoryStore.AddFailure` | src/kaleta/auth/login_rate_limit.py:90-96 | counts in place as the store specification says: a fresh counter after expiry, else one more |
| `AttemptStores.RedisStore.AddFailure` | src/kaleta/auth/login_rate_limit.py:155-167 | INCR, TTL and a conditional EXPIRE give the specified store and count; a non-integer cell raises and changes nothing |
| `AttemptStores.RedisStore.Lock` | src/kaleta/auth/login_rate_limit.py:172-174 | the lock cell holds its end time with an expiry past it |
| `LoginRateLimit.LoginRateLimiter.RecordFailure` | src/kaleta/auth/login_rate_limit.py:215-225 | over either store: refused while locked, else counted, and at the threshold locked and reset |
| `LoginRateLimit.LoginRateLimiter.IsLocked` | src/kaleta/auth/login_rate_limit.py:207-209 | answers the specified lock test and changes nothing |
| `LoginRateLimit.LoginRateLimiter.RemainingLockSeconds` | src/kaleta/auth/login_rate_limit.py:211-213 | zero without a lock, otherwise the whole seconds left, less than one short of the lock's end |
| `LoginRateLimit.LoginRateLimiter.Clear` | src/kaleta/auth/login_rate_limit.py:227-228 | forgets count and lock |
| `LoginRateLimit.SendThrottle.Allow` | src/kaleta/auth/login_rate_limit.py:245-251 | true and starts the interval, or false while the last one runs |
| `LoginRateLimit.SendThrottle.Mark` | src/kaleta/auth/login_rate_limit.py:263-266 | starts the interval unconditionally |
| `LoginRateLimit.SendThrottle.RetryAfterSeconds` | src/kaleta/auth/login_rate_limit.py:253-261 | the whole seconds until the interval frees up, with no side effect |
| `Lockouts.ThresholdIsExact` | src/kaleta/auth/login_rate_limit.py:215-225 | over either store, after a clear and within one window of the first failure: the failures of a key answer true exactly from max_failures on, among any calls on any keys |
| `Lockouts.LockoutLastsOneWindow` | src/kaleta/auth/login_rate_limit.py:207-225 | a failure that locks locks for exactly one window: until then every failure and question is answered as locked, from then on the key is free |
| `Lockouts.ClearForgets` | src/kaleta/auth/login_rate_limit.py:227-228 | after a clear, whatever came before: not locked, no seconds left, and fewer failures than the threshold answer false |
| `Lockouts.ClearSparesOthers` | src/kaleta/auth/login_rate_limit.py:107-109 | a clear changes no later answer about another key |
| `Lockouts.IntervalRunsExactly` | src/kaleta/auth/login_rate_limit.py:245-266 | an interval `allow` or `mark` starts refuses exactly until its length has passed |
| `SlidingWindow.SlidingWindowBound` | src/kaleta/auth/login_rate_limit.py:90-105 | for every run in time order without a clear of the key, any half-open window of `window_seconds` holds at most max(1, N, 2N-2) counted failures of the key |
| `SlidingWindow.SlidingWindowBoundIsReached` | src/kaleta/auth/login_rate_limit.py:215-225 | for every N of at least 2 a run counts exactly 2N-2 in one window, so no smaller bound holds |
| `SlidingWindow.LockEndMovesForward` | src/kaleta/auth/login_rate_limit.py:215-225 | the end of a key's lock never moves back along a run |
| `SlidingWindow.AllowedMailsAreSpaced` | src/kaleta/auth/login_rate_limit.py:231-251 | in memory at most one mail per key and interval: a later `allow` that says yes comes at least an interval after an earlier one, whatever calls (but a clear) come between |
| `RedisRefinement.AllowedMailsAreSpacedInRedis` | src/kaleta/auth/login_rate_limit.py:231-251 | the same in Redis, for the calls of one process after another |
| `ThrottleReplicas.MailsPerInterval` | src/kaleta/auth/login_rate_limit.py:231-251 | with R replicas interleaving single commands and stalling at will, every half-open interval of every run sends at most (1 + ... + R) + R mails |
| `ThrottleReplicas.AllowedPerInterval` | src/kaleta/auth/login_rate_limit.py:231-251 | when checks are made at the time read, at most 1 + ... + R allowed calls read their time in any half-open interval |
| `ThrottleReplicas.MailBoundsAreReached` | src/kaleta/auth/login_rate_limit.py:245-251 | for every interval and set of replicas one run meets both bounds exactly |
| `ThrottleReplicas.OneMailPerReplica` | src/kaleta/auth/login_rate_limit.py:231-251 | the sharper bound after a moment at which no call is under way: at most R mails in the interval from there, whatever is stored |
| `ThrottleReplicas.OneMailPerReplicaIsReached` | src/kaleta/auth/login_rate_limit.py:245-251 | for every set of replicas a run sends R mails at once, every command at the time read |
| `ThrottleReplicas.MailsAreSpacedIff` | src/kaleta/auth/login_rate_limit.py:231-239 | one mail every interval along all runs if and only if there is one replica at most: of the times read when checks are made at the time read, of the mails themselves when calls take no time |
| `ThrottleReplicas.StalledCheckSendsTwice` | src/kaleta/auth/login_rate_limit.py:245-251 | one replica, any interval: a check that stalls until the lock cell has lapsed lets two mails out at one moment |
| `ThrottleReplicas.StalledWriteSendsLate` | src/kaleta/auth/login_rate_limit.py:245-251 | one replica, any interval: after a write that stalls two mails go out half an interval apart |
| `ThrottleReplicas.OneCallIsAllow` | src/kaleta/auth/login_rate_limit.py:245-251 | one replica's commands run without interruption do and answer what `allow` specifies |
| `RedisRefinement.RedisAgreesIff` | src/kaleta/auth/login_rate_limit.py:112-183 | both stores give the same answers on every run of a limiter over a key set if and only if no key is another plus ":lock" and the window is whole seconds (or one failure locks); the same condition decides runs in which a throttle shares the store |
| `RedisRefinement.RedisRefinesMemory` | src/kaleta/auth/login_rate_limit.py:83-183 | the sufficient half, by a simulation in which Redis drops expired locks and memory keeps them |
| `RedisRefinement.LockSuffixIsSeen` | src/kaleta/auth/login_rate_limit.py:149-153 | the run of one limiter that tells the stores apart when a key is another plus ":lock": enough failures to lock the one, then a failure of the other |
| `RedisRefinement.ThrottlesAlwaysAgree` | src/kaleta/auth/login_rate_limit.py:169-179 | both stores answer every run of a throttle alike, whatever its keys and interval |
| `RedisRefinement.MisfitWindowIsSeen` | src/kaleta/auth/login_rate_limit.py:165-167 | the run of one limiter that tells them apart for a window EXPIRE rounds |
| `RedisRefinement.SlidingWindowBoundInRedis` | src/kaleta/auth/login_rate_limit.py:155-174 | the sliding-window bound for counts kept in Redis |
| `Replicas.CounterBound` | src/kaleta/auth/login_rate_limit.py:194-225 | with R replicas interleaving single commands, a live counter is at most max_failures - 1 + R (plus replicas that died over the threshold) until a lock is written after its creation |
| `Replicas.CounterBoundIsReached` | src/kaleta/auth/login_rate_limit.py:194-225 | for every threshold and every set of replicas a run takes the counter to that bound exactly |
| `Replicas.HistoryIsKept` | src/kaleta/auth/login_rate_limit.py:194-225 | what the bound's history counts: counters created, locks written since, deaths over the threshold |
| `Replicas.CompletedCallLeavesExpiry` | src/kaleta/auth/login_rate_limit.py:155-167 | every completed `add_failure` leaves its counter with an expiry for the rest of its life, from any state, so also after a call that died before EXPIRE |
| `Replicas.LockEndsAWindowAfterItsWriter` | src/kaleta/auth/login_rate_limit.py:172-174 | there is a lock exactly when a call wrote one since the last clear, and it ends one window after the time its last writer read |
| `Replicas.WriteMovesBackIff` | src/kaleta/auth/login_rate_limit.py:221-225 | in every reachable state a write moves the lock's end back exactly when the writer read a time before the stored end less a window, by no more than that call has been under way |
| `Replicas.LockEndCanMoveBack` | src/kaleta/auth/login_rate_limit.py:198-201 | for every threshold, window and pair of replicas a run in which the second write ends the lock half a second earlier, stored and as read |
| `Replicas.LockNeverMovesBackIff` | src/kaleta/auth/login_rate_limit.py:194-225 | over all runs without a clear the stored end never moves back if and only if there is one replica at most |
| `Replicas.OneCallIsRecord` | src/kaleta/auth/login_rate_limit.py:215-225 | one replica's commands run without interruption leave the database as the sequential `record_failure` does |
| `Replicas.ClearIsClear` | src/kaleta/auth/login_rate_limit.py:182-183 | a clear between the commands of other calls leaves the database as `clear` does |
| `MemberRefs.TenantOfMemberRef` | src/kaleta/crypto/keyring.py:179-189 | `_tenant_of` reads back the household `tenant_member_ref` wrote, for every non-negative id and for no other |
| `KeyRings.KeyRing.Put` | src/kaleta/crypto/keyring.py:243-261 | files the unlock with its expiry |
| `KeyRings.KeyRing.Get` | src/kaleta/crypto/keyring.py:263-275 | answers a live, unfrozen entry and evicts an expired one |
| `KeyRings.KeyRing.ForMember` | src/kaleta/crypto/keyring.py:277-287 | the scan in insertion order, evicting the expired entries it meets before it stops |
| `KeyRings.KeyRing.LockMember` | src/kaleta/crypto/keyring.py:295-301 | drops every entry of the member and counts them, expired ones included |
| `KeyRings.KeyRing.ReplaceDataKey` | src/kaleta/crypto/keyring.py:323-331 | gives every entry of the household the new key, nothing else changed, and counts them |
| `KeyRings.KeyRing.Move` | src/kaleta/crypto/keyring.py:337-342 | carries an entry, expired or not, to the new key |
| `KeyRings.KeyRing.Count` | src/kaleta/crypto/keyring.py:344-347 | the number of live entries |
| `KeyRingLaws.UnlockIsServed` | src/kaleta/crypto/keyring.py:243-275 | an unlock is answered as it was put to every `get` of its session, exactly until its TTL has passed and while not frozen, through any calls that do not lock, replace or move it |
| `KeyRingLaws.LockedSessionIsGone` | src/kaleta/crypto/keyring.py:289-293 | after a lock of a session nothing is answered for it until it is unlocked again or moved onto |
| `KeyRingLaws.LockedMemberIsGone` | src/kaleta/crypto/keyring.py:295-301 | locking a member drops exactly its sessions and says how many; no read answers an unlock of the member until it unlocks again |
| `KeyRingLaws.MoveCarriesTheUnlock` | src/kaleta/crypto/keyring.py:337-342 | the new session reads what the old one would have, the old one nothing, others as before |
| `KeyRingLaws.FrozenAsTold` | src/kaleta/crypto/keyring.py:305-321 | `is_frozen` answers by the last freeze, thaw or clear, after any run |
| `KeyRingLaws.ReplaceTouchesTheHousehold` | src/kaleta/crypto/keyring.py:323-331 | the household's unlocks and no others get the new key, and their number is answered |
| `KeyRingLaws.ClearLeavesNothing` | src/kaleta/crypto/keyring.py:349-352 | after a clear nothing is read, counted or frozen |
| `KeyRings.FrozenAnswersNothing` | src/kaleta/crypto/keyring.py:305-335 | from freeze until thaw or clear no read answers an entry of the household, over every run |
| `KeyRings.ThawUndoesFreeze` | src/kaleta/crypto/keyring.py:305-317 | freeze then thaw of a household that was not frozen leaves the ring as it was |
| `KeyRings.ReplacedKeyIsServed` | src/kaleta/crypto/keyring.py:323-331 | after a replacement every answer for the household carries the new key with owner, private key and expiry of an earlier unlock, until a new put |
| `KeyRings.OtherHouseholdsSeeNoRekey` | src/kaleta/crypto/keyring.py:303-335 | with fresh moves, taking all freezes, thaws and replacements of some households out of a run changes no get, count or frozen flag of the others, nor whether `for_member` finds one |
| `KeyRingOrders.ForMemberSeesNoRekey` | src/kaleta/crypto/keyring.py:277-335 | with fresh puts too (to a key not in use, or over a live entry) it changes no entry `for_member` answers to the others |
| `KeyRingOrders.ForMemberSeesNoEviction` | src/kaleta/crypto/keyring.py:277-287 | under the same condition `for_member` answers the entry a ring that never evicts would |
| `KeyRingOrders.ForMemberAnswersFirst` | src/kaleta/crypto/keyring.py:277-287 | the answer is the first of the member's entries in the order of the live ones, or none while frozen |
| `KeyRingOrders.PutDisagreesIff` | src/kaleta/crypto/keyring.py:243-261 | a put makes rings that agreed on the live entries and their order disagree on the order if and only if the key is not live and different live entries stand behind its place; behind a key a ring does not hold stand none |
| `KeyRingOrders.ReunlockShowsFreeze` | src/kaleta/crypto/keyring.py:243-287 | the concrete case, under one TTL of any length: after a freeze of another household and a read of its member, unlocking an expired session again makes `for_member` answer another entry than without the freeze |
| `KeyRings.LazyEvictionIsInvisible` | src/kaleta/crypto/keyring.py:243-287 | under a monotone clock and fresh moves, get, count and "for_member finds one" agree with a ring that never evicts |
| `KeyRings.AnswersAreYoungerThanTheTtl` | src/kaleta/crypto/keyring.py:243-287 | every answered entry stems from a put less than its TTL ago; move and replacement never extend it |
| `KeyRings.FoundIffLive` | src/kaleta/crypto/keyring.py:277-287 | `for_member` finds one exactly when the member has a live unlock and is not frozen |
| `KeyRings.MoveDisagreesIff` | src/kaleta/crypto/keyring.py:337-342 | two rings alike in their live entries disagree after a move exactly when one had evicted the carried entry and the target was live |
| `KeyRings.StaleMoveIsVisible` | src/kaleta/crypto/keyring.py:337-342 | the concrete case: an expired entry carried over a live one |
| `KeyRings.TwoPuts` | src/kaleta/crypto/keyring.py:243-261 | two puts under one TTL, half of it apart, reach the ring of that case |
| `EncryptedTexts.SealedReadsIff` | src/kaleta/db/types.py:323-352 | a value sealed under a key reads back exactly when the reader picks that key (current, or previous by a version of its own), and never as another text |
| `EncryptedTexts.BindReadsBack` | src/kaleta/db/types.py:295-352 | what a bind stores the same context reads back; a text is refused only while locked on a column that may not be plain |
| `EncryptedTexts.NothingPlainWhileEncrypting` | src/kaleta/db/types.py:295-321 | with encryption on no bind stores a plaintext value, but for text on a column that may be plain while locked |
| `EncryptedTexts.FamilyKeyWins` | src/kaleta/db/types.py:243-253 | inside a family the resolver changes no bind and no read; the family's own key is used, or it is locked |
| `EncryptedTexts.ExplicitKeyWins` | src/kaleta/db/types.py:243-253 | an explicit key wins over family and resolver |
| `EncryptedTexts.StoredBytesPass` | src/kaleta/db/types.py:295-321 | bytes in the column's format go in as they are: sealed ones always, plain ones exactly with encryption off, others never |
| `Rekeying.MixedValuesRead` | src/kaleta/db/types.py:219-230 | with distinct versions, plaintext, old and new values all read during a re-key |
| `Rekeying.NewKeyAloneReadsNoOldValue` | src/kaleta/db/types.py:219-230 | a reader with the new key alone reads nothing still under the old one |
| `Rekeying.RewrittenCell` | src/kaleta/db/types.py:295-352 | a readable cell rewritten keeps its text for both readers and carries the new version |
| `Rekeying.Table.RewriteAll` | src/kaleta/services/data_encryption_service.py:49-107 | over any range of rows and any mix of formats: texts kept at every point, selected rows under the new key alone, the rest untouched |
| `Rekeying.InterruptedPassResumes` | src/kaleta/services/data_encryption_service.py:49-107 | a pass stopped at any row and started over leaves all values under the new key, readable without the old one, with their first texts |
| `Rekeying.SweepCatchesStragglers` | src/kaleta/services/data_encryption_service.py:49-86 | after the sweep for the old version nothing carries it and nothing needs the old key |
| `BlindIndexes.ExactIndexIsEquality` | src/kaleta/db/types.py:403-415 | exact indexes are equal exactly when the texts are |
| `BlindIndexes.KindsMeetIff` | src/kaleta/db/types.py:396-427 | exact and digit indexes never meet; a normalised one meets an exact one exactly when the normalised text is "=" plus the other, and a digit one exactly when it is "#" plus the digits picked |
| `BlindIndexes.NormalisedMeetsExact` | src/kaleta/db/types.py:396-415 | an input on which the normalised and the exact index coincide: "=" plus a text, where normalising leaves that alone |
| `BlindIndexes.DigitIndexIsSuffixEquality` | src/kaleta/db/types.py:418-436 | indexes of the last n digits are equal exactly when those digits are |
| `BlindIndexes.DigitsAreSliced` | src/kaleta/db/types.py:418-427 | which digits are indexed, for every limit: none, zero, positive and negative |
| `BlindIndexes.IndexFollowsTheDataKey` | src/kaleta/db/types.py:386-393 | two encrypting contexts give a text the same exact index if and only if they encrypt under the same data key |
| `BlindIndexes.EncryptedCodesAreApart` | src/kaleta/db/types.py:363-393 | no code made while encrypting is one made with encryption off, whatever kinds and texts |
| `BlindIndexes.PlainIndexNeedsNoKey` | src/kaleta/db/types.py:386-389 | with encryption off the index depends on no data key and never raises |
| `BlindIndexes.LockedIndexRaises` | src/kaleta/db/types.py:386-436 | while locked exactly the indexes of something raise; inside a family the resolver changes none |
| `BlindIndexes.FillBlindIndexes` | src/kaleta/db/blind_index.py:31-40 | each object by its own model's indexes: all of a new one, of a dirty one where the source changed; raises exactly when locked with an index to compute, and says what is then filled, touched and untouched |
| `BlindIndexes.IndexesStayInStep` | src/kaleta/db/blind_index.py:31-40 | after any run of adds, edits and flushes every stored index column equals the index of its source |
| `BlindIndexes.WritesReachTheDatabase` | src/kaleta/db/blind_index.py:31-40 | adds and edits reach their object and no other; a flush stores every pending object as it is but for its index columns, and leaves the rest |
| `BlindIndexes.LookupByIndexIsLookupByName` | src/kaleta/db/blind_index.py:31-40 | lookup and uniqueness by the exact index column are lookup and uniqueness by name |
| `BlindIndexes.WithBlindIndexes` | src/kaleta/db/blind_index.py:62-74 | recomputes the index of every source the row carries and nothing else |
| `BlindIndexes.ReindexAll` | src/kaleta/db/blind_index.py:62-74 | over all rows: refused while locked, otherwise every row with its sources is indexed under the current key |
| `BlindIndexes.OldCodesAreGone` | src/kaleta/db/blind_index.py:62-74 | a row re-indexed under another data key holds no exact code of the old one |
| `Whitespace.CollapseIsIdempotent` | src/kaleta/models/payee_identity.py:22-30 | split-and-join collapses whitespace idempotently, for every string |
| `PayeeIdentities.PayeeIdentity.DeriveKey` | src/kaleta/models/payee_identity.py:79-83 | pattern and key are set together and belong together |
| `PayeeIdentities.PayeeIdentity.Matches` | src/kaleta/models/payee_identity.py:85-89 | accepts exactly the spellings equal up to whitespace (and case), and each of those has the stored key as its index |
| `PayeeIdentities.SpellingsAccepted` | src/kaleta/models/payee_identity.py:85-89 | a case-sensitive identity accepts exactly the spellings of the same words, any other exactly those that fold alike |
| `PayeeIdentities.LookupIsComplete` | src/kaleta/models/payee_identity.py:33-39 | every accepted spelling is found by the stored key, and what the key finds agrees once normalised |
| `Sessions.UserStorage.Park` | src/kaleta/auth/session.py:236-260 | parks user and family under a fresh nonce |
| `Sessions.UserStorage.Consume` | src/kaleta/auth/session.py:292-334 | a matching nonce is spent whatever else is wrong; a mismatch leaves the bucket alone |
| `Sessions.UserStorage.LogIn` | src/kaleta/auth/session.py:188-208 | writes the login and drops half-finished ones |
| `Sessions.UserStorage.TouchSession` | src/kaleta/auth/session.py:368-374 | moves the activity stamp only when it is older than the touch interval |
| `Sessions.UserStorage.PopAuthKeys` | src/kaleta/auth/session.py:381-382 | drops every auth key and nothing else |
| `SessionRotation.Server.LogOut` | src/kaleta/auth/session.py:377-382 | drops the unlock and every auth key |
| `SessionRotation.Server.RotateSession` | src/kaleta/auth/session.py:353-360 | up to the await on the new storage: consume, drop the unlock, snapshot the preferences, empty the old bucket |
| `SessionRotation.Server.Resume` | src/kaleta/auth/routes.py:45-49 | from there to the await on the flags: fill the new bucket, sign in, stamp the second factor |
| `SessionRotation.Server.StampFlags` | src/kaleta/auth/routes.py:50-56 | stamps the flags, or undoes the login when they cannot be read |
| `SessionRotation.AuthenticatedIdsAreMinted` | src/kaleta/auth/session.py:236-365 | in every reachable state, rotations caught between their awaits included, an authenticated id was minted by a rotation and is signed in as exactly the user and family parked under the nonce it consumed; no nonce mints two ids |
| `SessionRotation.RotationEmptiesTheOld` | src/kaleta/auth/session.py:353-360 | a rotation begins exactly for the bucket's own nonce, in time and for its purpose; the old bucket is then empty and without an unlock |
| `SessionRotation.RotationFillsTheNew` | src/kaleta/auth/session.py:363-365 | whatever happens during the await, the new bucket has all the old preferences and no unlock, is signed in exactly for a login as exactly who was parked, and has the second-factor stamp exactly when it was proved |
| `SessionRotation.ParkedGoesThrough` | src/kaleta/auth/session.py:236-334 | from any reachable state a parked login or a logout whose nonce comes back within 60 seconds goes through, as exactly who was parked or as nobody; any later nothing is minted |
| `SessionRotation.UnreadFlagsUndoTheLogin` | src/kaleta/auth/routes.py:50-56 | after the flags the id is signed in exactly when it was and they could be read |
| `SessionRotation.FlagsLandWhereTheyBelong` | src/kaleta/auth/admin.py:57-74 | the administrator's flag and that of a password to be changed each stand under their own key, and nothing else changes |
| `SessionRotation.LogOutEndsTheLogin` | src/kaleta/auth/session.py:377-382 | a logout leaves no auth key and no unlock under the id, keeps its preferences and touches no other id |
| `SessionRotation.LoggedOutStaysOut` | src/kaleta/auth/session.py:377-382 | after it nobody is signed in under the id again along any run, and nothing is unlocked under it until somebody unlocks it |
| `SessionRotation.ChallengesAreDropped` | src/kaleta/auth/session.py:188-260 | a login and a parked login drop a half-finished challenge, a login also the second-factor stamp |
| `SessionRotation.LoginReplacesTheFamily` | src/kaleta/auth/session.py:188-208 | a login is for the family given and keeps nothing of an earlier one |
| `SessionRotation.UnlockUnlocks` | src/kaleta/crypto/keyring.py:243-261 | an unlock files the id and changes nothing else of the sessions |
| `SessionRotation.ConsumingParked` | src/kaleta/auth/session.py:292-334 | consuming gives back exactly what was parked, if and only if in time, for its purpose and with a family |
| `SessionRotation.WrongGuessChangesNothing` | src/kaleta/auth/session.py:292-301 | a wrong guess leaves the whole state as it was |
| `SessionExpiry.Arrive` | src/kaleta/auth/middleware.py:101-129 | a page load up to its await: family, then expiry |
| `SessionExpiry.Settle` | src/kaleta/auth/middleware.py:137-147 | after the await: revocation, and only then the touch |
| `SessionExpiry.ArrivalOutcomes` | src/kaleta/auth/session.py:635-683 | every arrival of any bucket: which rule ends it, unreadable stamps included, and what is left of the bucket |
| `SessionExpiry.TouchMovesTheStamp` | src/kaleta/auth/session.py:368-374 | the activity stamp is rewritten exactly when unreadable or older than 300 seconds, and nothing else is |
| `SessionExpiry.OtherWritersWrite` | src/kaleta/auth/session.py:635-683 | what the other writers of a live session write, and that they write nothing else |
| `SessionExpiry.NextLoad` | src/kaleta/auth/session.py:635-683 | after any run of a live session, its page loads overlapping at will: ended for age exactly when the TTL from login has passed; a gap over the idle window since the last load settled always ends it; a gap of at most idle less 300 s never does for idleness |
| `SessionExpiry.AttentiveSessionLives` | src/kaleta/auth/middleware.py:118-147 | a session loaded often enough and not revoked lives until its TTL, through any number of overlapping loads and revalidations |
| `SessionExpiry.EndedStaysEnded` | src/kaleta/auth/middleware.py:118-147 | a session one load has ended is not signed in again by another that was under way |
| `RevocationCaches.RevocationCache.Begin` | src/kaleta/auth/revocation_cache.py:62-68 | answers from memory exactly while the entry is younger than the TTL |
| `RevocationCaches.RevocationCache.Finish` | src/kaleta/auth/revocation_cache.py:69-71 | stores the loaded watermark under the time the check began |
| `RevocationCaches.RevocationCache.Forget` | src/kaleta/auth/revocation_cache.py:73-80 | drops the entry of the given or current family |
| `RevocationCaches.ForgetDropsOne` | src/kaleta/auth/revocation_cache.py:46-80 | a forget drops the named family's entry, or the current one's when none is named, and leaves every other answering as before |
| `RevocationRuns.NoOldBumpIsMissed` | src/kaleta/auth/revocation_cache.py:62-71 | over every interleaving a check begun at T answers a database state that holds every commit made before T - TTL |
| `RevocationRuns.OldSessionIsRefused` | src/kaleta/auth/session.py:686-698 | so a session issued before such a bump is refused |
| `RevocationRuns.RefusedOnlyForABump` | src/kaleta/auth/session.py:686-698 | in every run a session is refused only if some bump of its user came after its issue; one without an issue time exactly when the answer holds a watermark |
| `RevocationRuns.RefusedIff` | src/kaleta/auth/session.py:686-698 | a check begun more than a TTL after the last bump refuses exactly the sessions issued before one |
| `RevocationRuns.ForgetShowsBumpIff` | src/kaleta/auth/revocation_cache.py:69-80 | after a forget every later check sees a committed bump, in every continuation, if and only if no load that read before it and began within the TTL is still to store |
| `RevocationRuns.LateStoreHidesBump` | src/kaleta/auth/revocation_cache.py:62-80 | for every TTL and key a run from an empty cache in which a check begun after bump and forget misses the bump |
| `RevocationRuns.LoadedAnswerIsCached` | src/kaleta/auth/revocation_cache.py:62-71 | a check that finds nothing fresh answers the database's watermark, and memory serves that for exactly one TTL or until a clear |
| `RevocationRuns.ForgetLeavesTheRest` | src/kaleta/auth/revocation_cache.py:73-80 | a forget leaves all other entries, the checks under way and the database as they were |
| `SeederRegistry.Walk` | src/kaleta/seeders/__init__.py:67-75 | the depth-first walk adds the key and a closed set under it, and terminates on cyclic registries |
| `SeederRegistry.WithDependencies` | src/kaleta/seeders/__init__.py:63-79 | exactly the registered keys reachable over dependencies, each once, in registry order |
| `SeederRegistry.WithDependents` | src/kaleta/seeders/__init__.py:82-100 | the sweep reaches exactly the registered keys from which the asked ones are reachable |
| `SeederRegistry.DependenciesAreLeast` | src/kaleta/seeders/__init__.py:63-79 | that set is the least dependency-closed one |
| `SeederRegistry.DependentsAreLeast` | src/kaleta/seeders/__init__.py:82-100 | and the other the least dependent-closed one |
| `SeederRegistry.ClosuresAreConverse` | src/kaleta/seeders/__init__.py:63-100 | b is in dependents({a}) if and only if a is in dependencies({b}) |
| `SeedFeatures.Session.Seed` | src/kaleta/seeders/base.py:89-108 | skip, replace or create one feature |
| `SeedFeatures.Session.Run` | src/kaleta/seeders/__init__.py:103-134 | the states passed through are exactly those of the plan, all removals last registered first and then the creations in registry order, and foreign keys hold in every one of them; the final rows and outcomes are the specified ones |
| `SeedFeatures.WrongOrderBreaksForeignKeys` | src/kaleta/seeders/__init__.py:114-118 | in any order of removals, one made before a removal that stands on it breaks a foreign key at that step |
| `SeedFeatures.SeedingTwiceChangesNothing` | src/kaleta/seeders/__init__.py:111-112 | repeating a call without `replace` changes nothing and skips every feature |
| `SeedFeatures.ReplaceSparesTheRest` | src/kaleta/seeders/__init__.py:114-128 | replacing rewrites the asked features and what stands on them and touches no other rows |
| `SessionRingBuffers.SessionRingBuffer.Append` | src/kaleta/observability/ring_buffer.py:29-38 | the specified append, with the eviction loop and the bounded deque |
| `SessionRingBuffers.BufferIsExactLru` | src/kaleta/observability/ring_buffer.py:29-51 | after any run of appends and drops a session is in memory exactly when it logged after its last drop and at no point since its last line had 100 others logged and not been dropped; sessions stand by their last line, each with its last 200 lines since it last entered memory; without drops they are the last 100 |
| `SessionRingBuffers.RecencyIsByLastAppend` | src/kaleta/observability/ring_buffer.py:29-38 | the recency list names exactly the sessions whose last line came after their last drop, once each, ordered by the position of that line |
| `BalanceMigration.Database.Upgrade` | alembic/versions/c4d5e6f7a8b9_ledger_derived_account_balances.py:57-96 | the three UPDATEs give the specified tables, the check constraint holds, and the unlinked legs are counted |
| `BalanceMigration.Database.Downgrade` | alembic/versions/c4d5e6f7a8b9_ledger_derived_account_balances.py:99-115 | the stored figure becomes the derived balance and the column goes |
| `BalanceMigration.OpeningBalance` | alembic/versions/c4d5e6f7a8b9_ledger_derived_account_balances.py:68-96 | the opening balance is the old figure less incomes and higher-id transfer legs, plus expenses, lower-id and unlinked legs, of the account |
| `BalanceMigration.StoredBalance` | alembic/versions/c4d5e6f7a8b9_ledger_derived_account_balances.py:99-115 | the figure a downgrade stores is the opening balance plus credits less debits of the account |
| `BalanceMigration.RowMovesItsAccount` | alembic/versions/c4d5e6f7a8b9_ledger_derived_account_balances.py:41-52 | an income raises its account's balance by its amount, an expense lowers it, no other moves |
| `BalanceMigration.TransferMovesMoney` | alembic/versions/c4d5e6f7a8b9_ledger_derived_account_balances.py:68-74 | a linked transfer lowers the account of its lower-id leg and raises the other by the amount |
| `BalanceMigration.UnlinkedLegLeaves` | alembic/versions/c4d5e6f7a8b9_ledger_derived_account_balances.py:75-81 | an unlinked leg lowers its own account |
| `BalanceMigration.BalancesSurviveMigrations` | alembic/versions/c4d5e6f7a8b9_ledger_derived_account_balances.py:57-115 | any alternation of upgrades and downgrades keeps every visible balance; exactly the transfers have a direction; rows change in nothing else |
| `BalanceMigration.AnchorIgnoresTheGuess` | alembic/versions/c4d5e6f7a8b9_ledger_derived_account_balances.py:94-96 | the anchored balance is the old one whatever directions were guessed |
| `BalanceMigration.LegsCancel` | alembic/versions/c4d5e6f7a8b9_ledger_derived_account_balances.py:68-74 | mutually linked legs of equal amounts cancel |
| `BalanceMigration.TransfersConserveMoney` | alembic/versions/c4d5e6f7a8b9_ledger_derived_account_balances.py:41-96 | with all transfers paired, all balances together are the opening balances plus the amounts of the incomes less those of the expenses |
| `Calendar.IsoWeekIsThursdayNumber` | src/kaleta/core/weeks.py:96-97 | the ISO week number is the place of the week's Thursday among the Thursdays of the year that holds it |
| `Calendar.OrdinalsOrder` | src/kaleta/core/weeks.py:72-73 | dates compare as their ordinals do |
| `Weeks.OverflowsIff` | src/kaleta/core/weeks.py:88-97 | a day overflows exactly from 27 December 9999 (ISO weeks) or from the 29th (month weeks) |
| `Weeks.DayIsInItsBucket` | src/kaleta/core/weeks.py:88-97 | each day lies in its bucket of at most seven days |
| `Weeks.BucketIsShared` | src/kaleta/core/weeks.py:88-97 | every day inside a bucket falls in that same bucket, index included, in both modes |
| `Weeks.BucketsShareOrPart` | src/kaleta/core/weeks.py:88-97 | two buckets are equal or disjoint |
| `Weeks.MonthIsTiled` | src/kaleta/core/weeks.py:90-94 | month weeks tile each month from its first to its last day; in December 9999 the fifth raises and the first four tile up to the 28th |
| `Weeks.WeekBucketsPartition` | src/kaleta/core/weeks.py:100-110 | the listed weeks are in order and disjoint, each holds a given day, every given day is covered, any valid day lies in a listed week exactly when that is its own, and an overflowing day raises |

## Left out

- The cryptography itself, key material (`with_passphrase`, recovery codes, sealing) and `EncryptedString`: library code, or the same framing as `EncryptedText` with fewer branches.
- Redis's own clock and expiry precision: commands see the caller's clock, and a key is gone at the instant its expiry is reached.
- Redis connection errors: an unanswered Redis raises before anything changes.
- `AttemptStores.RedisStore.AddFailure`: INCR and TTL are one transaction, as the pipeline makes them; a death between that and EXPIRE is modelled in `Replicas`.
- `MemberRefs.TenantOfMemberRef`: digits are ASCII; `str.isdigit` also accepts other Unicode digits, some of which `int` refuses.
- `KeyRings.KeyRing.Put`: the 32-byte check of a data key happens when the key is made, before the ring sees it.
- `KeyRings.KeyRing.Get`: the thread lock makes each method one step; it is not modelled further.
- `Rekeying.Table.RewriteAll`: rows are addressed by position, and index columns are recomputed in `BlindIndexes.ReindexAll`; SQL batching is not modelled.
- `BlindIndexes.FillBlindIndexes`: bulk UPDATE statements bypass the hook, as its documentation says.
- `Sessions.UserStorage.Consume`: values of a type the code never writes under a key (a numeric string as a user id) read as absent.
- `ThrottleReplicas.OneMailPerReplica`: only from moments at which no call is under way; other moments are `ThrottleReplicas.MailsPerInterval`. `mark` is not interleaved.
- `SessionRotation.Server.RotateSession`: unpredictability of nonces and ids is freshness; guessing probabilities, the redirect target and the store of MFA challenges are not modelled.
- `SessionExpiry.Settle`: the password-change and passphrase redirects after the touch, and public paths.
- `RevocationRuns.OldSessionIsRefused`: assumes that the watermarks of a user only grow, as wall-clock stamps do.
- `SeedFeatures.Session.Run`: what a seeder writes is a function of its key and never empty; a removal deletes the seeder's own rows only.
- `BalanceMigration.Database.Upgrade`: the width of the numeric columns is not modelled; amounts are unbounded.
- `Weeks.WeekBucketsPartition`: bucket ends are ordinals, each of which is a date (`Calendar.OrdinalIsADate`); `coerce_mode` is left out.
- The audit log, the other migrations, schemas, settings, UI and command-line code: declarative or single-branch.
