# Verified model of the vault core

A Dafny model of the parts of this TypeScript library whose behaviour depends on interleavings,
on time, on the shape of data or on byte strings, with proofs of what they promise. Functions that
only compute are functions here; code that works step by step (module variables, mutable maps and
sets, loops, byte arrays filled with zeros) is classes and methods, each proved against a function
that says what it does, and the promises are lemmas about those functions.

| files | subject |
|---|---|
| `SessionSpec`, `SessionSafety`, `SessionTheorems`, `SessionEffects`, `SessionImplementation`, `AutoLockMinutes` | the owner-scoped vault session: every call and every resumption of a suspended async function is an event, and a run is any sequence of events |
| `FixedWindowSpec`, `FixedWindowTheorems`, `FixedWindowDecisions`, `FixedWindowLimiter`, `VaultUnlockRateLimit`, `UnlockScopes` | the rate limiter, as a plain unbounded per-key limiter, as the pruned and capacity-bounded one, and as the class; the wrapper around unlock attempts, and the scopes and actions that share one limiter |
| `OverlayPanels` | the lock overlay's rectangle subtraction |
| `PlaintextReject`, `PublicMetadata` | two walks over object graphs that may share nodes and have cycles |
| `Unicode`, `Base64Url`, `JsonText` | UTF-16, UTF-8, base64url and JSON text, as the platform writes and reads them |
| `VaultAad`, `AesGcm`, `VaultKeyEnvelope`, `AadRouting`, `KeyDerivation`, `Envelopes`, `Rotation` | from the authenticated data of one ciphertext up to any sequence of key rotations of a whole vault |
| `SensitiveBuffers`, `InnerKeyMaterialCache`, `IndependentAuthorization`, `PortableVaultBroker` | the same operations with the byte arrays they allocate, and what is left in those arrays |
| `DuressSequence`, `EmergencyRouting` | which vault an emergency shows |

## How cryptography is modelled

A GCM ciphertext is either the record of what was sealed (key, IV, authenticated bytes, plaintext)
or bytes nobody sealed, and opens only under the same key, IV and authenticated bytes. All that
surrounds it is concrete: the authenticated bytes are the UTF-8 form of the JSON text the code
builds, and the plaintext is the UTF-8 form of base64url text. AES-KW, Argon2id, HKDF, ECDH, NFKC and
BIP39 spelling are parameters. The only laws asked of them are that AES-KW unwrapping is the exact
inverse of wrapping and adds eight bytes (section 2.2 of RFC 3394), and that spelling a canonical
recovery phrase again changes nothing. `LawsAreSatisfiable` and `PlatformLawsAreSatisfiable` give
functions that meet them.

## What the proofs found

- A lockout ends when the window it was earned in ends, so the default 30-minute lockout of a
  15-minute window is never served in full (`LockoutEndsExactlyAt`, `FullLockoutExactlyWhen`,
  `DefaultLockoutIsCutShort`).
- The map of buckets outgrows its capacity exactly when the bucket due for eviction has the empty
  key (`CapacityExceededExactlyWhen`, `EmptyKeyOutgrowsCapacity`).
- A full map evicts live lockouts. The bound on failing attempts holds until the bucket is evicted,
  and always when no more keys are tried than there is room for (`LockoutDroppedExactlyWhen`,
  `FailingAttemptsAreBounded`, `FewScopesAreBounded`, `LockoutsForgottenWithoutRoom`).
- Encrypting accepts texts that decrypting does not give back: over 64 KiB of UTF-8, with a lone
  surrogate, or beginning with a byte order mark (`RoundTripExactlyWhen`).
- The base64url decoder ignores the spare bits of a last group and takes padding, white space and the
  standard alphabet, so several texts stand for the same bytes (`ReencodesExactlyWhen`,
  `PaddedTextDecodes`).
- The fallback for legacy contexts moves the context to the end of the record, so a ciphertext sealed
  for the text of its own stored record unlocks exactly when the context is canonical or missing, or
  the stored order is the canonical one or has the context last (`StoredAsSealedUnlocksExactlyWhen`,
  `StoredOrderIsForgotten`).
- Unlocking tries several records and re-wrapping only the stored one, so a password that unlocks
  can be rotated exactly when the ciphertext was sealed for the record stored with it
  (`RotatableExactlyWhenStoredAsSealed`, `UnlockableButNotRotatable`).
- Handing the cache the very array it already holds leaves zeros cached
  (`Cache.CacheFromEnvelopeDecrypt`).
- A wrapped 192-bit key is 32 bytes long and is read back as a raw key (`WrappedOpensExactlyWhen`).
- A routed unlock keeps the role chosen at its start: emergency mode entered while its envelope is
  being opened still ends with a primary key installed (`RoutedUnlockInstallsChosenRole`,
  `EmergencyDuringRoutedUnlock`).
- A new auto-lock configuration leaves the running deadline where it is, but not the remaining time
  that is reported (`RemainingAfterReconfiguration`).
- In an emergency a passkey opens the decoy exactly when the decoy has a passkey envelope of its own;
  otherwise the primary key is installed in the decoy's role, and then shows nothing
  (`PasskeyInstallsItsVault`, `BorrowedPasskeyShowsNothing`).
- Rectangle subtraction is exact exactly when the hole is not inside out where the panel meets it
  (`SplitsExactlyWhen`).

## Model

| member | source | states |
|---|---|---|
| SessionTheorems.SensitiveStateBelongsToCurrentOwner | src/session/vault-session-operation.ts:79-139 | In every reachable state once owners are in use: a key is installed if and only if a lease is present, the current lease has the installed key, its role and the current owner, and key, cache entry and emergency pin were all put there under the current owner |
| SessionTheorems.NewOwnerStartsClean | src/session/auto-lock.ts:162-176 | Beginning for another owner, or for the first one over unowned state, leaves no key, role, lease, cache, pin or emergency mode, and the old cached array is zeroed |
| SessionTheorems.SameOwnerKeepsSession | src/session/auto-lock.ts:162-176 | Beginning again for the same owner issues a new current operation and changes nothing else; the lease stays current |
| SessionTheorems.CachedMaterialIsIntact | src/session/inner-key-material-cache.ts:60-76 | In every reachable state the cached array is not one that has been zeroed |
| SessionTheorems.CurrentIsIdentity | src/session/vault-session-operation.ts:141-151 | In every reachable state the test of identity, epoch and owner is equivalent to identity alone |
| SessionTheorems.LastOperationWins | src/session/vault-session-operation.ts:125-151 | A superseded token is never current again after any run, and resuming any frame that carries it changes no variable, at most zeroing the frame's own array |
| SessionTheorems.StaleResumeIsInert | src/session/auto-lock.ts:133-143 | A resumed frame that fails its guard reports the cancellation and changes nothing; a cache frame zeroes its array |
| SessionTheorems.UnownedWorkIsCancelled | src/session/vault-session-operation.ts:201-211 | Work suspended without a token changes nothing once owners are in use |
| SessionTheorems.SupersededExactlyWhen | src/session/vault-session-operation.ts:79-139 | A current token stops being current in a step if and only if the step locks the vault or begins a newer valid operation |
| SessionTheorems.EmergencyMeansPinnedOrDecoy | src/session/memory-session.ts:22-60 | In every reachable state pinned is equivalent to stored emergency mode, and the session is in emergency if and only if pinned or holding a decoy key |
| SessionTheorems.PinSurvivesExactlyUntil | src/session/auto-lock.ts:182-198 | A step ends the pin if and only if it is a guarded clear, a completed exit, a change of owner or a logout |
| SessionTheorems.EmergencySurvives | src/emergency/browser-emergency.ts:257-290 | Emergency mode survives every run without such a step, whatever is locked, unlocked, restarted or awaited |
| SessionTheorems.UninterruptedRoutedUnlock | src/emergency/browser-emergency.ts:120-166 | An uninterrupted routed unlock installs its key, as a decoy if and only if the flag, the duress signal or the session's mode asked for it, and a decoy pins emergency mode |
| SessionTheorems.RoutedUnlockInstallsChosenRole | src/emergency/browser-emergency.ts:120-197 | From every reachable state, whatever events come between its three steps, a routed unlock that goes through installs its key in the role chosen at its start, and leaves a primary key in emergency mode if and only if that role was primary and the mode was pinned by the commit |
| SessionTheorems.EmergencyDuringRoutedUnlock | src/emergency/browser-emergency.ts:142-166 | The run begin, start of a routed unlock, emergency entered by the same operation, two resumptions ends unlocked, in emergency, with the primary key |
| SessionTheorems.StepKeepsTimer | src/session/auto-lock.ts:100-156 | A step keeps the timer in order if and only if it is not a timer clear or lock-state reset on an unlocked session |
| SessionTheorems.UnlockedMeansTimerArmed | src/session/auto-lock.ts:107-144 | In every run without those, the vault is unlocked if and only if one timer is armed, due a configured time after the last activity, and an unlocked vault is not manually locked |
| SessionTheorems.RemainingIsTimeToDeadline | src/session/auto-lock.ts:270-273 | The reported remaining time is the deadline minus now while the configured duration is unchanged |
| SessionTheorems.LockedFromDeadline | src/session/auto-lock.ts:107-114 | An unlocked vault left untouched is locked from its deadline on, whatever else happens in between |
| SessionSafety.StepKeeps | src/session/auto-lock.ts:129-206 | Every event keeps the invariant that relates tokens, leases, memory, cache, timer and suspended frames |
| SessionEffects.PlainUnlockInstallsGivenRole | src/session/auto-lock.ts:129-144 | From every reachable state and whatever happens while it waits, a plain unlock begun by whoever may act goes through if and only if its key was accepted and its caller still may act; then it installs exactly the given key, in the given role or primary, leased to the token's owner, and is pinned if and only if the role is the decoy or the mode was pinned at the commit |
| SessionEffects.UninterruptedUnlock | src/session/auto-lock.ts:129-144 | Uninterrupted, a plain unlock by whoever may act installs the key in the given role or primary |
| SessionEffects.UnlockCommits | src/session/auto-lock.ts:133-143 | The commit alone: it also rearms the timer, ends the manual lock and leaves the cache as it was |
| SessionEffects.RunsStartEmpty | src/session/vault-session-operation.ts:53-65 | Every run starts without owner, key, cache or emergency, and with unowned calls allowed |
| SessionEffects.RoutedUnlockProceedsExactlyWhen | src/emergency/browser-emergency.ts:139-166 | A routed unlock goes on to its key check if and only if its envelope was opened and its caller still may act, and has changed nothing by then |
| SessionEffects.LockDropsEverything | src/session/auto-lock.ts:146-156 | Locking drops key, role, lease, token, timer and cache, zeroes the cached array, and keeps owner and pin |
| SessionEffects.ClearOwnerDropsEverything | src/session/auto-lock.ts:182-186 | Logging out drops all that and ends the emergency and the ownership |
| SessionEffects.BeginsExactlyWhen | src/session/vault-session-operation.ts:67-90 | An operation begins if and only if its owner identifier has 1 to 2048 units and no white space at either end; it is fresh, current and of that owner |
| SessionEffects.BeginLocksExactlyWhen | src/session/auto-lock.ts:162-176 | Beginning locks the session and ends the emergency if and only if another owner was in charge, or none and there was a key, cached material or an emergency; otherwise memory, cache, timer and lease stay |
| SessionEffects.TrimmedExactlyWhen | src/session/vault-session-operation.ts:67-76 | The 25 code units that count as white space |
| SessionEffects.RefusedExactlyWhen | src/session/vault-session-operation.ts:201-211 | A guarded call is cancelled if and only if its token is not the current one, or it has none and owners are in use; it says which, and does nothing but zero its own array |
| SessionEffects.ResumptionRefusedAs | src/session/vault-session-operation.ts:153-211 | A resumption fails if what it waited for failed, and is cancelled, as stale or as missing its token, if its caller no longer may act; apart from the cache frames it then changes nothing |
| SessionEffects.EmergencyCallsPinExactly | src/session/auto-lock.ts:188-198 | By whoever may act, entering emergency mode pins it, clearing unpins it, the persisted flag pins it if set, and nothing else changes |
| SessionEffects.PinStartsExactlyWhen | src/session/auto-lock.ts:129-198 | Emergency mode becomes pinned in a step if and only if that step enters it, reads the persisted flag as set, or commits a decoy, by whoever may act |
| SessionEffects.ExitStartsExactlyWhen | src/emergency/browser-emergency.ts:257-277 | Leaving emergency mode starts if and only if the session is in it and the code asked for is there |
| SessionEffects.ExitEndsTheEmergency | src/emergency/browser-emergency.ts:257-277 | It goes through if and only if the phrase was proved and its caller still may act, and leaves the vault locked, in normal mode, without lease, token or cache |
| SessionEffects.CachingInstallsExactly | src/session/inner-key-material-cache.ts:60-76 | Caching goes through if and only if the material was accepted and its caller still may act; the entry is then the caller's array and key and the old array is zeroed, and otherwise the caller's array is zeroed and the entry kept |
| SessionEffects.RewrappingDropsExactlyWhen | src/session/inner-key-material-cache.ts:100-127 | Re-wrapping from the cache drops it if and only if it fails while its caller still may act |
| SessionEffects.DeletionLocksExactlyWhen | src/session/vault-deletion.ts:37-53 | Deletion locks the session if and only if the purge succeeded and its caller still may act, and does not show it as locked by hand |
| SessionEffects.AuthorizedDeletionPurgesExactlyWhen | src/session/vault-deletion.ts:65-80 | With an authorization first, the purge starts if and only if that succeeded and its caller still may act |
| SessionEffects.TouchRenewsExactlyWhen | src/session/auto-lock.ts:107-127 | Activity renews the timer if and only if the vault is unlocked and the lease given is the current one, or none is given and owners are not in use |
| SessionEffects.TimeLocksExactlyWhenDue | src/session/auto-lock.ts:107-114 | Time passing locks the vault if and only if its timer falls due, and otherwise moves the clock alone |
| SessionEffects.RemainingAfterReconfiguration | src/session/auto-lock.ts:55-62 | A new configuration does not move the deadline of an unlocked vault, and the remaining time then reported is off by the difference of the two durations |
| SessionImplementation.VaultSession.Dispatch | src/session/auto-lock.ts:129-206 | The class that updates the module variables in place goes from state to state, with the same outcome, exactly as the transition function says, for every event |
| SessionImplementation.VaultSession.IssueVaultSessionOperation | src/session/vault-session-operation.ts:79-90 | Issuing takes the next epoch and a fresh token, and makes it the current one of that owner |
| SessionImplementation.VaultSession.CommitVaultSessionLease | src/session/vault-session-operation.ts:93-117 | The lease carries the token's owner and epoch and the given key and role; without a token there is none |
| SessionImplementation.VaultSession.LockVaultSession | src/session/auto-lock.ts:146-156 | Locking gives exactly the locked state: no operation, lease, key, role, cache or timer, and the cached array zeroed |
| SessionImplementation.VaultSession.BeginVaultSessionUnlock | src/session/auto-lock.ts:162-176 | Beginning gives exactly the begun state, purging first on a change of owner or over unowned state |
| SessionImplementation.VaultSession.CommitUnlock | src/session/auto-lock.ts:129-144 | The part of an unlock after its await, guard and all, gives exactly the resumed state |
| SessionImplementation.VaultSession.CommitCache | src/session/inner-key-material-cache.ts:60-76 | The part of caching after its await gives exactly the resumed state: zeroed and rejected, or cached |
| SessionImplementation.VaultSession.ResumeFrame | src/session/vault-deletion.ts:37-63 | Resuming any suspended frame, purge and exit included, gives exactly the resumed state |
| SessionImplementation.Replay | src/session/auto-lock.ts:129-206 | Dispatching any sequence of events ends in the state the run function gives |
| AutoLockMinutes.MinutesAreWholeAndBounded | src/session/auto-lock.ts:64-83 | Resolved minutes are a whole number in 1..1440 and within the administrator's ceiling, for every number including NaN and the infinities |
| AutoLockMinutes.ClampIsWhole | src/session/user-auto-lock-preference.ts:20-28 | Clamping to whole bounds gives a whole number |
| AutoLockMinutes.MinutesFollowConfiguration | src/session/auto-lock.ts:64-83 | The number asked for is the user's, else the administrator's, else 15, and 15 if it is not finite and positive; the duration is the nearest whole number to it, raised to 1 and cut to the ceiling |
| AutoLockMinutes.CeilingFollowsConfiguration | src/session/auto-lock.ts:69-77 | The ceiling is the nearest whole number to the administrator's within 1..1440, or 15 if there is none to use |
| FixedWindowTheorems.BoundedRefinesSimple | src/rate-limit/fixed-window.ts:79-148 | Every run of the pruned, bounded limiter gives exactly the decisions of the plain unbounded one with a reset inserted at each eviction |
| FixedWindowTheorems.EvictionIsLeastRecent | src/rate-limit/fixed-window.ts:91-118 | An evicted key has minimal window start, is not the requested one, and goes only when the map is full |
| FixedWindowTheorems.PruningIsInvisible | src/rate-limit/fixed-window.ts:79-89 | A pruned bucket would have been answered like a new one, for every key and time from then on |
| FixedWindowTheorems.MapNeverExceedsCapacity | src/rate-limit/fixed-window.ts:91-118 | In every run that names its clients the map holds at most maxBuckets buckets |
| FixedWindowTheorems.CapacityExceededExactlyWhen | src/rate-limit/fixed-window.ts:100-102 | An access outgrows the capacity if and only if a new key meets a full map whose bucket due for eviction has the empty key |
| FixedWindowTheorems.EmptyKeyOutgrowsCapacity | src/rate-limit/fixed-window.ts:100-118 | With room for one bucket, checking the empty key and then any other leaves two |
| FixedWindowTheorems.LockoutDroppedExactlyWhen | src/rate-limit/fixed-window.ts:91-118 | A check or consume drops a live lockout if and only if it asks for a key without a bucket, the pruned map is full, and the locked bucket is the oldest and not that of the empty key |
| FixedWindowTheorems.FewClientsAreNeverEvicted | src/rate-limit/fixed-window.ts:105-118 | A run that names no more keys than there is room for evicts nothing |
| FixedWindowTheorems.CountNeverExceedsMax | src/rate-limit/fixed-window.ts:127-144 | In every run of the plain limiter each count stays within max, and a lockout means that max is reached |
| FixedWindowTheorems.BoundedCountNeverExceedsMax | src/rate-limit/fixed-window.ts:79-144 | The same in every run of the pruned, bounded limiter |
| FixedWindowTheorems.SlidingWindowBound | src/rate-limit/fixed-window.ts:25-66 | Any half-open interval of length L holds at most max times (ceiling of L/m, plus one) allowed consumes of a key that is not reset, m being the shorter of window and lockout |
| FixedWindowTheorems.BoundedSlidingWindow | src/rate-limit/fixed-window.ts:79-148 | The same bound for the pruned, bounded limiter, for a key neither reset nor evicted |
| FixedWindowTheorems.RefusalNamesItsEnd | src/rate-limit/fixed-window.ts:30-51 | A refusal has a positive retryAfterMs that ends at resetAtMs, and every consume from then on is allowed if nothing intervenes |
| FixedWindowTheorems.WaitingIsEnough | src/rate-limit/fixed-window.ts:30-66 | In the plain limiter, whatever other requests come in between, a consume at or after the announced time is allowed unless one before it already was |
| FixedWindowTheorems.BoundedWaitingIsEnough | src/rate-limit/fixed-window.ts:79-144 | The same of the pruned, bounded limiter, whatever it prunes and evicts meanwhile |
| FixedWindowTheorems.RetryAfterCoversTheWait | src/rate-limit/vault-api-rate-limit.ts:63-74 | The whole seconds emitted (section 10.2.3 of RFC 9110) reach the announced time and overshoot it by less than a second |
| FixedWindowTheorems.LockoutEndsExactlyAt | src/rate-limit/fixed-window.ts:53-66 | A locked bucket is allowed again if and only if the lockout or its window is over |
| FixedWindowTheorems.FullLockoutExactlyWhen | src/rate-limit/fixed-window.ts:136-140 | A lockout runs its full length if and only if it fits in what is left of the window |
| FixedWindowTheorems.DefaultLockoutIsCutShort | src/rate-limit/vault-unlock-rate-limit.ts:41-52 | Under 5 failures, 15 minutes and 30 minutes of lockout, a locked client is let in within 15 minutes |
| FixedWindowDecisions.RemainingIsExact | src/rate-limit/fixed-window.ts:41-50 | In every run, remaining is the number of consumes still allowed at that instant, the next one being refused, and each consume says how many are left after it |
| FixedWindowDecisions.NewClientHasMax | src/rate-limit/fixed-window.ts:105-118 | A key without a bucket, or just reset, has the whole allowance for one window from now |
| FixedWindowDecisions.CountStartsOverExactlyAt | src/rate-limit/fixed-window.ts:41-66 | The window does not slide: until the announced time a check gives the same decision, and from then on the whole allowance |
| FixedWindowDecisions.LockedOutExactlyWhen | src/rate-limit/fixed-window.ts:25-51 | A check says locked out if and only if it refuses and lockouts are configured |
| FixedWindowDecisions.LastOneLocks | src/rate-limit/fixed-window.ts:127-144 | The consume that takes the last one is allowed, and starts a lockout of the configured length if there is one |
| FixedWindowDecisions.ChecksTakeNothing | src/rate-limit/fixed-window.ts:120-125 | After a check every later check answers the same but for the end of the window, which is sooner if and only if the check opened a window that is still running and would have been opened later |
| FixedWindowDecisions.PrunedExactlyWhen | src/rate-limit/fixed-window.ts:79-89 | A bucket is pruned if and only if its window is over, nothing is counted in it, and it has no lockout, an ended one, or one that ends at zero; the others are kept as they are |
| FixedWindowDecisions.OrderIsInsertionOrder | src/rate-limit/fixed-window.ts:79-118 | Pruning, evicting and resetting keep the rest in insertion order, a known key stays in its place, and a new one comes last, so the first among equally old buckets is the first inserted |
| FixedWindowDecisions.DefaultPolicyIs | src/rate-limit/vault-unlock-rate-limit.ts:11-15 | By default five failures are allowed in 15 minutes, the fifth announces 30 minutes of lockout, and there is room for 10000 buckets |
| FixedWindowLimiter.Limiter.Consume | src/rate-limit/fixed-window.ts:127-144 | The class answers and stores exactly what the bounded specification says |
| FixedWindowLimiter.Limiter.Check | src/rate-limit/fixed-window.ts:120-125 | Checking answers and stores (it creates, refreshes, prunes and may evict) exactly what the bounded specification says |
| FixedWindowLimiter.Limiter.Reset | src/rate-limit/fixed-window.ts:146-148 | Reset removes that key's bucket and no other |
| FixedWindowLimiter.Limiter.PruneExpired | src/rate-limit/fixed-window.ts:79-89 | The loop that deletes while it iterates leaves exactly the unexpired buckets, in order |
| FixedWindowLimiter.Limiter.EvictOldestBucket | src/rate-limit/fixed-window.ts:91-103 | The loop removes exactly the first bucket of minimal window start, unless its key is empty |
| FixedWindowLimiter.Replay | src/rate-limit/fixed-window.ts:71-151 | Any sequence of requests handled by the class gives the bounded decisions, which on an ordered clock are those of the plain limiter with the evictions as resets |
| VaultUnlockRateLimit.FailingAttemptsAreBounded | src/rate-limit/vault-unlock-rate-limit.ts:95-112 | Used one attempt at a time on the bounded limiter, the wrapper lets at most max times (ceiling of L/m, plus one) failing attempts on one scope and action end within any interval of length L, until one succeeds or the bucket is evicted |
| VaultUnlockRateLimit.FewScopesAreBounded | src/rate-limit/vault-unlock-rate-limit.ts:95-112 | The same bound, with nothing asked of evictions, when no more scopes and actions are tried than the map has room for |
| VaultUnlockRateLimit.LockoutsForgottenWithoutRoom | src/rate-limit/fixed-window.ts:91-118 | With room for one bucket, a failing attempt alternating with attempts on another key runs every time, for any number of times at one instant |
| VaultUnlockRateLimit.WithVaultUnlockRateLimit | src/rate-limit/vault-unlock-rate-limit.ts:95-112 | An attempt runs if and only if the check of the bucket of its scope and action allows it, a refusal carries the decision, and the limiter is left with exactly the recorded store |
| VaultUnlockRateLimit.RecordingIs | src/rate-limit/vault-unlock-rate-limit.ts:101-110 | That store: the check alone when refused or when a nested rate-limit error ended the attempt, else the bucket deleted on success or charged on failure |
| VaultUnlockRateLimit.RunAttempts | src/rate-limit/vault-unlock-rate-limit.ts:95-112 | A limiter used for one attempt after another lets run exactly those that the bounds speak of |
| VaultUnlockRateLimit.CheckedFailureIsCharged | src/rate-limit/vault-unlock-rate-limit.ts:101-110 | In the bounded limiter, the failure recorded after an allowed check is itself an allowed consume |
| UnlockScopes.KeysApart | src/rate-limit/vault-unlock-rate-limit.ts:28-30 | Two pairs of a scope and an action share a bucket if and only if they are the same pair, whatever colons the scope holds, and no bucket has the empty key |
| UnlockScopes.OthersDoNotMatter | src/rate-limit/vault-unlock-rate-limit.ts:95-112 | While its bucket is not evicted, the attempts of a scope and action are let run exactly as if no other scope and no other action had ever been tried |
| UnlockScopes.FirstAttemptRuns | src/rate-limit/vault-unlock-rate-limit.ts:65-79 | So the first attempt of a scope and action is let run, whatever others have done |
| UnlockScopes.EachScopeIsBounded | src/rate-limit/vault-unlock-rate-limit.ts:95-112 | With room for the scopes and actions tried, each of them lets at most max times (ceiling of L/m, plus one) failing attempts end within any interval of length L until one succeeds |
| UnlockScopes.FewScopesAreNeverEvicted | src/rate-limit/vault-unlock-rate-limit.ts:95-112 | Nothing is evicted while no more scopes and actions are tried than the map has room for |
| UnlockScopes.UnlocksKeepCapacity | src/rate-limit/vault-unlock-rate-limit.ts:28-30 | Whatever is tried, the wrapper never makes the map outgrow its capacity |
| UnlockScopes.UnlockAll | src/rate-limit/vault-unlock-rate-limit.ts:95-112 | The wrapper called once after another on the class lets run exactly the attempts these statements speak of |
| OverlayPanels.OverlayCoversExactly | src/react/protected-gate/overlay-panels.ts:90-104 | A point lies in exactly one returned panel if it is in the viewport and in no hole, and in none otherwise |
| OverlayPanels.OverlayPanelsAreSound | src/react/protected-gate/overlay-panels.ts:90-104 | The returned panels are non-empty, pairwise disjoint and within the viewport |
| OverlayPanels.PiecesCoverExactly | src/react/protected-gate/overlay-panels.ts:36-88 | Each point of the panel outside a well-formed hole lies in exactly one piece, no other point in any |
| OverlayPanels.SplitsExactlyWhen | src/react/protected-gate/overlay-panels.ts:26-88 | The split is exact at every point if and only if the hole is not inside out where the panel meets it |
| OverlayPanels.SplitConservesArea | src/react/protected-gate/overlay-panels.ts:36-88 | The panel's area is the pieces' total area plus the area of the panel in the hole |
| OverlayPanels.LeftWholeExactlyWhen | src/react/protected-gate/overlay-panels.ts:26-42 | A panel stays in one piece if and only if the hole lies beside, above or below it; touching is not cutting |
| OverlayPanels.PiecesAreNonEmpty | src/react/protected-gate/overlay-panels.ts:36-88 | No piece of a non-empty panel is empty, whatever the hole |
| OverlayPanels.SubtractRectFromPanel | src/react/protected-gate/overlay-panels.ts:36-88 | The pushes give the strips above, below, before and after the hole, those that exist |
| OverlayPanels.ComputeVaultLockOverlayPanels | src/react/protected-gate/overlay-panels.ts:90-104 | The loop over exclusions and the final filter give the specified panels |
| PlaintextReject.SearchGraph | src/validation/plaintext-reject.ts:40-62 | The walk with one visited set ends on every finite graph and finds nothing if and only if no reachable object has an offending field; else it reports one and a path that leads to it |
| PlaintextReject.RejectVaultPlaintextFields | src/validation/plaintext-reject.ts:3-62 | The same under the case-insensitive list of forbidden names and defined values |
| PlaintextReject.ForbiddenExactlyWhen | src/validation/plaintext-reject.ts:32-38 | An ASCII name is forbidden if and only if it is, letter for letter and whatever the case, a listed one |
| PlaintextReject.ListedFields | src/validation/plaintext-reject.ts:3-28 | The 24 names listed |
| PlaintextReject.ReportLeadsToOffence | src/validation/plaintext-reject.ts:40-62 | The reported path spells out field by field a trail that ends at the offending field |
| PlaintextReject.PathsAre | src/validation/plaintext-reject.ts:47-49 | Names in a path are joined by dots |
| PlaintextReject.Walker.Visit | src/validation/plaintext-reject.ts:41-61 | One visit adds only objects it has fully searched, or gives a justified report |
| PublicMetadata.Walker.AssertJsonMetadataValue | src/validation/public-metadata.ts:8-52 | On success the ancestor set is as it was found, and it succeeds if and only if the value fits and meets no ancestor |
| PublicMetadata.AssertJsonMetadata | src/validation/public-metadata.ts:8-52 | The walk accepts if and only if the value unfolds to a finite plain JSON tree within the depth, width and key-length bounds |
| PublicMetadata.FitsExactlySmallTrees | src/validation/public-metadata.ts:8-52 | Fitting the bounds level by level is equivalent to unfolding to such a tree; shared nodes are allowed |
| PublicMetadata.CyclesAreRefused | src/validation/public-metadata.ts:8-52 | Nothing from which a cycle can be reached is accepted, at any depth |
| PublicMetadata.LimitsAre | src/validation/public-metadata.ts:1-52 | The bounds are seven levels of containers, 64 entries in each and keys of 1 to 128 units, and no object of a foreign prototype |
| Base64Url.RoundTrip | src/crypto/encoding.ts:3-20 | Decoding undoes encoding for all bytes (section 5 of RFC 4648) |
| Base64Url.EncodedLength | src/crypto/encoding.ts:3-9 | The encoded length is the ceiling of 4n/3 |
| Base64Url.EncoderIsInjective | src/crypto/encoding.ts:3-9 | No two byte strings have the same encoding |
| Base64Url.ReencodesExactlyWhen | src/crypto/encoding.ts:3-20 | A text decodes and encodes back to itself if and only if it has URL-safe symbols alone, not one more than a multiple of four, and zero spare bits |
| Base64Url.PaddedTextDecodes | src/crypto/encoding.ts:11-20 | The text QQ== decodes to the letter A and is not of that kind |
| Base64Url.FourBlanksAreSkipped | src/crypto/encoding.ts:11-20 | White space is skipped wherever it stands but counts when padding is added, so four such characters change nothing |
| Base64Url.BoundedAcceptsExactly | src/crypto/encoding.ts:22-52 | An encoding is accepted if and only if its bytes fit, and then decodes to them |
| Base64Url.BoundedNeverExceeds | src/crypto/encoding.ts:30-52 | The bounded decoder never returns more than maxBytes |
| Base64Url.DecodeBoundedBase64Url | src/crypto/encoding.ts:30-52 | Length check, decoding and size check in the code's order give the specified result or error |
| Base64Url.EncodeBytes | src/crypto/encoding.ts:3-9 | The byte-by-byte loop and the replacements give the specified text |
| Base64Url.DecodeText | src/crypto/encoding.ts:11-20 | The loop fills a new array with the decoded bytes |
| Base64Url.EncodingsAre | src/crypto/encoding.ts:3-9 | Examples from section 10 of RFC 4648, and the two symbols of the URL-safe alphabet |
| Unicode.TextSurvivesExactlyWhen | src/crypto/encoding.ts:54-64 | Text survives UTF-8 encoding and decoding if and only if it has no lone surrogate and no leading byte order mark |
| Unicode.EncodingsAre | src/crypto/encoding.ts:54-58 | The bytes of the first and last scalars of each length, and of one between (section 3 of RFC 3629) |
| JsonText.RenderingIsInjective | src/crypto/aad.ts:4-11 | No two flat objects of strings and nulls are written as the same JSON text (section 25.5.2 of ECMA-262) |
| JsonText.BytesAreInjective | src/crypto/aad.ts:13-26 | Nor as the same UTF-8 bytes |
| JsonText.EscapedExactlyWhen | src/crypto/aad.ts:4-11 | A unit is escaped if and only if it is a control character, a quote, a backslash or a lone surrogate |
| JsonText.ShortEscapesAre | src/crypto/aad.ts:4-11 | The seven two-character escapes |
| JsonText.LongEscapesAre | src/crypto/aad.ts:4-11 | Six-character escapes have four lower-case hexadecimal digits |
| VaultAad.CandidatesAre | src/crypto/aad.ts:13-26 | The deduplicated candidates are the bytes of exactly the listed property orders |
| VaultAad.PlainRecordReads | src/crypto/aad.ts:4-11 | The canonical text of a record of plain texts reads as it is: braces, the four names and values in quotes, in alphabetical order of the names |
| VaultAad.NamesAre | src/crypto/aad.ts:4-11 | The property names are context, field, resourceId and userId |
| VaultAad.FieldsAre | src/profile.ts:18-18 | The field names are vault_key, vault_payload and vault_index |
| VaultAad.BytesBindAad | src/crypto/aad.ts:4-26 | Two records written to the same bytes, in whatever key orders, are the same record, with missing, null and every string context told apart |
| VaultAad.CandidatesBindAad | src/crypto/aad.ts:13-26 | No candidate byte string of one record is a candidate of another |
| VaultAad.WrittenBelongsTo | src/crypto/aad.ts:4-26 | What was written for a record in any key order is a candidate of that record alone, and of it if and only if that order reads like one it tries |
| VaultAad.BytesSameExactlyWhen | src/crypto/aad.ts:4-26 | One record is written to the same bytes in two key orders if and only if they agree on the properties it has |
| AesGcm.DecryptField | src/crypto/aes-gcm.ts:72-98 | Size checks and the loop over candidates with its last error give the specified result |
| AesGcm.TryCandidates | src/crypto/aes-gcm.ts:80-97 | The loop succeeds if and only if key, IV and one of the candidates match, and gives the plaintext |
| AesGcm.SealsForItsScope | src/profile.ts:34-44 | A text is sealed for its scope's own record in the canonical order, in the context the scope names or else in the profile's, which has one for vault keys and one for everything else |
| AesGcm.OpensOnlyForItsAad | src/crypto/aes-gcm.ts:40-98 | What encryptField made opens if and only if key and record are those it was made with and it is small enough |
| AesGcm.SealedOpensExactlyAs | src/crypto/aes-gcm.ts:72-98 | A ciphertext sealed for a record in any key order opens if and only if it is stored as that record, in an order that recognises it, small enough, under that key and IV |
| AesGcm.RoundTripExactlyWhen | src/crypto/aes-gcm.ts:40-98 | decryptField inverts encryptField if and only if the text fits in 64 KiB of UTF-8, has no lone surrogate and no leading byte order mark |
| AesGcm.RefusedAs | src/crypto/aes-gcm.ts:72-98 | Decryption says too large if and only if the IV has more than 12 bytes or the ciphertext more than 64 KiB and a tag, and not authentic if and only if it is within those bounds and key, IV or every candidate record differs |
| AesGcm.Base64UrlTextComesBack | src/crypto/vault-key-envelope.ts:78-105 | Base64url text of at most 64 KiB always comes back |
| VaultKeyEnvelope.UserVaultKeysEqual | src/keys/user-vault-key.ts:52-104 | Comparing exported bytes, or sealing a probe with one key and opening it with the other, decides equality of the keys |
| VaultKeyEnvelope.WrappedOpensExactlyWhen | src/crypto/user-vault-key-crypto.ts:34-58 | A wrapped key opens again if and only if it is not a 192-bit one |
| VaultKeyEnvelope.RewrapKeepsTheKey | src/crypto/vault-key-envelope.ts:143-158 | Re-wrapping succeeds if and only if the blob, raw or wrapped, opens to the session's key, and gives 40 bytes that open to it under the new key |
| VaultKeyEnvelope.WrappingHoldsTheKey | src/crypto/vault-key-envelope.ts:36-83 | Wrapping succeeds if and only if the key is exportable or the given blob opens to it, and the envelope then holds the key for the canonical record |
| VaultKeyEnvelope.WrappingRefusedAs | src/crypto/vault-key-envelope.ts:36-83 | Wrapping is refused as not exportable, not unwrapped or of another key, each if and only if it is so |
| VaultKeyEnvelope.RewrapsExactlyWhen | src/crypto/vault-key-envelope.ts:160-180 | Re-wrapping an envelope succeeds if and only if its record as stored decrypts to a blob of the session's key, and gives a canonical envelope with a 40-byte blob of it |
| AadRouting.RoutingExactlyWhen | src/envelopes/legacy-vault-key-unlock.ts:15-135 | Sound and complete for a ciphertext sealed for any record in any key order: the envelope unlocks if and only if scope and field match, key and IV sealed it, its blob opens, its order is recognised, and it was sealed for its own record in the canonical context or, from another allowed stored context, in the canonical, no or the stored one |
| AadRouting.StoredAsSealedUnlocksExactlyWhen | src/envelopes/legacy-vault-key-unlock.ts:15-68 | An envelope sealed for the very text of its stored record, in any key order, unlocks with its key if and only if the scope matches, the context is allowed, and it is canonical, or missing, or the stored order is the canonical one or has the context last |
| AadRouting.LibrarySealedUnlocksExactlyWhen | src/envelopes/legacy-vault-key-unlock.ts:15-68 | One sealed for its stored record in an order the library writes unlocks if and only if the scope matches and the context is allowed |
| AadRouting.UnlockIsSound | src/envelopes/legacy-vault-key-unlock.ts:113-135 | Whatever its bytes, an envelope that unlocks was sealed with the key for the stored record in an admitted context |
| AadRouting.UnlocksExactlyWhen | src/envelopes/legacy-vault-key-unlock.ts:113-135 | Unlocking succeeds if and only if the scope matches and the record opens under an admitted context |
| AadRouting.UnlockVaultKeyEnvelopeWithAadRouting | src/envelopes/legacy-vault-key-unlock.ts:113-135 | The branches give the specified result |
| AadRouting.UnwrapVaultKeyWithLegacyAadFallback | src/envelopes/legacy-vault-key-unlock.ts:88-111 | Checks and fallback loop give the specified result |
| AadRouting.TryCandidates | src/envelopes/legacy-vault-key-unlock.ts:99-110 | The loop gives the first success or the last failure |
| AadRouting.ContextsAre | src/envelopes/legacy-vault-key-unlock.ts:43-68 | The contexts tried from an allowed stored context are exactly the admitted ones |
| AadRouting.AllowedExactlyWhen | src/envelopes/legacy-vault-key-unlock.ts:15-29 | A context is allowed if and only if it is the canonical one, or legacy unlock is not switched off and it is missing, null or listed |
| AadRouting.AdmitsExactlyWhen | src/envelopes/legacy-vault-key-unlock.ts:43-68 | A ciphertext may have been sealed, from an allowed stored context, in that one or, if it is not the canonical one, in the canonical or none |
| AadRouting.LegacyUnlockIsTheDefault | src/profile.ts:7-8 | A profile that does not say behaves as one that switches legacy unlock on |
| AadRouting.WithoutLegacyUnlocksExactlyWhen | src/envelopes/legacy-vault-key-unlock.ts:113-135 | Switched off, an envelope unlocks if and only if its record is the canonical one of the expected scope and opens as stored |
| AadRouting.InScopeExactlyWhen | src/validation/aad-assert.ts:12-30 | The scope matches if and only if user, resource and the vault-key field do |
| AadRouting.FallbackRefusedAs | src/envelopes/legacy-vault-key-unlock.ts:88-98 | The fallback repeats both checks, the scope's before the context's |
| AadRouting.DisallowedContextIsRefused | src/envelopes/legacy-vault-key-unlock.ts:113-131 | A vault-key record in a context that is not allowed is refused for it, whatever else is wrong |
| AadRouting.NormalizedIs | src/validation/envelope-aad-normalize.ts:8-28 | Normalising gives a vault-key record with a missing or null context the canonical one and changes nothing else |
| AadRouting.StoredOrderIsForgotten | src/envelopes/legacy-vault-key-unlock.ts:61-68 | Sealed for its own stored text with the context first, and stored with a null or legacy context, an envelope opens as stored and never through the routing |
| KeyDerivation.DerivedAgain | src/kdf/argon2id.ts:29-187 | The key derived for a new envelope is derived again from the metadata stored with it |
| KeyDerivation.DerivesExactlyWhen | src/kdf/argon2id.ts:45-64 | From a decodable salt a key is derived if and only if memory, passes, lanes and both lengths of the salt are within their bounds, and it is Argon2id of the secret under them |
| KeyDerivation.UpgradeRecommendedExactlyWhen | src/crypto/policy.ts:47-71 | An upgrade is recommended for everything but Argon2id, kdf-v2, with 131072 KiB, 4 passes and 1 lane |
| KeyDerivation.NewMetadataAre | src/kdf/argon2id.ts:29-43 | New metadata are of that kind, and their salt decodes to the one drawn |
| KeyDerivation.PrfKeyIsFirstBytes | src/crypto/prf-key.ts:8-16 | A PRF output gives a key if and only if it has at least 32 bytes, and then its first 32 |
| Envelopes.PasswordUnlocksExactlyWhen | src/envelopes/password.ts:52-72 | A password unlocks if and only if the envelope is an Argon2id one and opens, by the routing, under the key of its normal form |
| Envelopes.PhraseUnlocksExactlyWhen | src/envelopes/recovery.ts:237-260 | A phrase unlocks if and only if it is valid, has the expected number of words if any is expected, and its canonical spelling does so |
| Envelopes.PhraseRefusals | src/envelopes/recovery.ts:244-249 | One that does not is refused as invalid, or for its length if one is expected |
| Envelopes.PasskeyUnlocksExactlyWhen | src/envelopes/passkey-prf.ts:161-221 | A PRF output unlocks if and only if it has 32 bytes and its first 32 open the envelope, and every failure reads the same |
| Envelopes.CreatedPasswordEnvelopeOpens | src/envelopes/password.ts:24-72 | The first envelope of an exportable key is made and opens to it with its password |
| Envelopes.CreatesRecoveryExactlyWhen | src/envelopes/recovery.ts:180-260 | A first recovery envelope is made if and only if the key is exportable and the phrase valid, and opens to the key with it |
| Envelopes.CreatesPasskeyExactlyWhen | src/envelopes/passkey-prf.ts:55-85 | A first passkey envelope is made if and only if the key is exportable and the output has 32 bytes, and opens to the key with it |
| Envelopes.CurrentIsFaithful | src/envelopes/legacy-vault-key-unlock.ts:132-134 | An envelope in the current form opens and decrypts as stored |
| Rotation.RotatesPasswordExactlyWhen | src/rotation/password.ts:39-89 | Rotation succeeds if and only if the password changes and the current one opens the envelope to the session's key and decrypts it as stored; the new envelope is current and opens to that key with the new password |
| Rotation.RotationRefusedAs | src/rotation/password.ts:39-60 | Rotation is refused first for an unchanged password, then as unlocking is, then for another session's key |
| Rotation.UpgradesPasswordExactlyWhen | src/rotation/password.ts:109-152 | An upgrade gives nothing if and only if the parameters are the recommended ones, and an envelope if and only if they are not and the password opens it to the session's key; that one is current |
| Rotation.UpgradesRecoveryExactlyWhen | src/rotation/recovery.ts:171-222 | The same for the recovery envelope: it is re-wrapped if and only if its parameters are not the recommended ones, the phrase opens it to the session's key, and the phrase has the expected number of words if any is expected; the length stored is that one, or the stored, or the counted one |
| Rotation.SecondUpgradeIsNoOp | src/crypto/policy.ts:47-71 | Upgrading an upgraded password envelope gives nothing to store |
| Rotation.SecondRecoveryUpgradeIsNoOp | src/crypto/policy.ts:47-71 | Upgrading an upgraded recovery envelope gives nothing to store |
| Rotation.RotatesRecoveryExactlyWhen | src/rotation/recovery.ts:58-154 | A new phrase is accepted if and only if it has a canonical spelling, that has the asked number of words, any confirmation has the same spelling, and the authorizing envelope opens to the session's key and decrypts as stored; the returned spelling opens the new, current envelope, which stores that number |
| Rotation.MistypedConfirmationIsRefused | src/rotation/recovery.ts:88-90 | A confirmation that is spelled differently is refused always, and for that reason if nothing else is wrong |
| Rotation.RecoveryRefusedAs | src/rotation/recovery.ts:58-90 | A new phrase is refused first for its authorization, then as invalid, then for its length |
| Rotation.AuthorizedExactlyWhen | src/rotation/authorization.ts:30-60 | Authorization passes if and only if the password or passkey opens its envelope to the session's key |
| Rotation.AddsPasskeyExactlyWhen | src/envelopes/passkey-prf-independent-authorization.ts:102-168 | An extra passkey envelope is made for a key if and only if the PRF output is long enough, the authorizing envelope unlocks to that key, even by a legacy record, and an authorizing phrase has the expected number of words if any is expected; it is current and holds that key |
| Rotation.AddingRefusedAs | src/envelopes/passkey-prf-independent-authorization.ts:102-130 | An extra passkey is refused first for a short PRF output, then for an envelope of another kind, then for the phrase |
| Rotation.RotatableExactlyWhenStoredAsSealed | src/crypto/vault-key-envelope.ts:160-180 | A password that unlocks can be rotated if and only if the ciphertext, sealed in any key order, was sealed for the record stored with it in an order recognised there |
| Rotation.UnlockableButNotRotatable | src/crypto/vault-key-envelope.ts:168-168 | Stored without the canonical context it was sealed in, a password envelope opens and is refused by rotation |
| Rotation.MadeIsCurrent | src/rotation/recovery.ts:58-222 | Whatever a call makes is in the current form and holds the one key, and a call with another session's key makes nothing |
| Rotation.RotateMakesExactlyWhen | src/rotation/password.ts:35-52 | Within a run, rotating a password makes an envelope if and only if the slot named holds one, the password changes and the old one opens it as stored to the session's key; it replaces that slot under the new password |
| Rotation.UpgradeMakesExactlyWhen | src/rotation/recovery.ts:171-222 | Upgrading makes one if and only if the slot named opens as stored to the session's key under parameters that are not the recommended ones; it replaces that slot under the same secret |
| Rotation.RecoverMakesExactlyWhen | src/rotation/recovery.ts:58-154 | A new phrase makes one under the conditions above, and replaces the recovery slot named, if one is |
| Rotation.EnrolMakesExactlyWhen | src/envelopes/passkey-prf-independent-authorization.ts:102-168 | An enrolment authorized by a slot that opens makes one under the conditions above, in addition to the others |
| Rotation.EveryRunKeepsTheKey | src/rotation/password.ts:39-152 | After any sequence of rotations, upgrades and enrolments with any session keys, from envelopes of any age that open to one vault key, every envelope still opens to that key |
| Rotation.EveryRunKeepsFaith | src/rotation/password.ts:39-152 | Where every envelope also decrypted as stored, it still does after any run |
| Rotation.RunsOnlyAddCurrent | src/rotation/recovery.ts:58-222 | Every envelope a run leaves was there before or is in the current form |
| Rotation.CallTouchesOneSlot | src/rotation/password.ts:35-52 | No call loses an envelope, and one changes at most the envelope it is about |
| SensitiveBuffers.Fill | src/session/inner-key-material-cache.ts:25-27 | Filling leaves zeros |
| SensitiveBuffers.ImportPrfKey | src/crypto/prf-key.ts:8-42 | The first 32 bytes are the key, and the snapshot is zeroed on every exit |
| SensitiveBuffers.ExtractInnerBlob | src/crypto/vault-key-envelope.ts:59-64 | The blob is in the one array left |
| SensitiveBuffers.UnwrapWithInnerMaterial | src/crypto/vault-key-envelope.ts:101-119 | Key and blob on success; on failure every array allocated is zeroed |
| SensitiveBuffers.UnwrapUserVaultKey | src/crypto/vault-key-envelope.ts:85-98 | The key, and on every exit every array allocated is zeroed |
| InnerKeyMaterialCache.Cache.ClearCachedEntry | src/session/inner-key-material-cache.ts:29-34 | The entry is gone and its array zeroed |
| InnerKeyMaterialCache.Cache.CacheFromEnvelopeDecrypt | src/session/inner-key-material-cache.ts:60-76 | It succeeds if and only if the session allows it before and after and the blob is the session key's; else the array is zeroed and the cache unchanged; on success the cache owns the array, intact if and only if it was not already the cached one, and the old array is zeroed |
| InnerKeyMaterialCache.Cache.CacheFromPasskeyEnvelope | src/session/inner-key-material-cache.ts:78-94 | It succeeds if and only if the session allows it throughout, the PRF output has 32 bytes, the envelope decrypts and its blob opens under them to the session's key; then the blob is cached under the first 32 and the old array zeroed, and otherwise the cache is left alone |
| InnerKeyMaterialCache.Cache.ResolveInnerVaultKeyBlobForWrap | src/session/inner-key-material-cache.ts:100-127 | The answer in every case: the caller's blob, the cached one if it is the session key's, nothing if nothing is cached, a cancellation, or a mismatch; that and only that zeroes and drops the cache |
| InnerKeyMaterialCache.Cache.CreatePasskeyEnvelopeWithSessionCache | src/envelopes/passkey-prf.ts:87-159 | The envelope, or the failure, made from blob, cache or key, or the cancellation, in every case; the cache is dropped if and only if wrapping from it failed in a live session |
| InnerKeyMaterialCache.CachedMaterialEnrolsExactlyWhen | src/envelopes/passkey-prf.ts:111-141 | Cached material makes a passkey envelope if and only if it is the session key's, and that envelope is current and opens to it |
| IndependentAuthorization.CreatePasskeyPrfEnvelopeAfterIndependentAuthorization | src/envelopes/passkey-prf-independent-authorization.ts:102-168 | The result is the one specified, and on every exit each array allocated for the PRF snapshot, a candidate's blob or the re-wrapped blob is zeroed |
| IndependentAuthorization.Buffers.UnlockSource | src/envelopes/passkey-prf-independent-authorization.ts:128-144 | Routing with the callback gives key and blob as specified, and every array it allocates is remembered |
| IndependentAuthorization.Buffers.FillAll | src/envelopes/passkey-prf-independent-authorization.ts:165-167 | The finally loop zeroes every remembered array |
| PortableVaultBroker.UnsealPuk | src/browser/portable-vault-broker.ts:151-225 | The unlock key if and only if the fields decode to their exact sizes and open to 32 bytes, and every other array allocated is zeroed |
| PortableVaultBroker.UnsealsExactlyWhen | src/browser/portable-vault-broker.ts:151-225 | A seal with properly encoded fields opens to a key if and only if they have 32, 12 and 48 bytes and the cipher, bound to the prefix and the seal's context, gives that key of 32 bytes |
| PortableVaultBroker.SealPrefixIs | src/browser/portable-vault-broker.ts:181-181 | The prefix is vault-broker:puk-seal:v1: |
| PortableVaultBroker.SealBindsContext | src/browser/portable-vault-broker.ts:181-181 | No two well-formed contexts bind a seal alike |
| PortableVaultBroker.RestoresExactlyWhen | src/crypto/portable-vault-broker-envelope.ts:140-164 | A response restores a key if and only if its record is the canonical one of the expected scope, decrypts as stored, and holds a blob that opens to that key under the derived keys |
| PortableVaultBroker.UnlockSession.Unseal | src/browser/portable-vault-broker.ts:240-245 | The private key is gone after one call, whatever its outcome |
| PortableVaultBroker.UnlockSession.UnsealAll | src/browser/portable-vault-broker.ts:228-250 | Of any number of attempts the first succeeds if and only if its seal opens, and no other does |
| PortableVaultBroker.RestoreAndCache | src/browser/portable-vault-broker.ts:310-337 | The answer and the cache follow exactly from what is restored, the receipt and the session: the entry becomes the restored blob under its wrapping key if and only if the receipt is accepted and the session allows caching; a rejected receipt zeroes the blob |
| PortableVaultBroker.UnlockPortableVaultBrokerResponse | src/browser/portable-vault-broker.ts:284-356 | When each of the six answers is due, for all inputs: refused at the start, malformed, not unsealed, receipt rejected, not restored or no longer allowed, and unlocked with the restored key; the cache becomes the restored blob exactly with an accepted receipt while caching is allowed, the session is used up, and every array allocated is zeroed or the live entry's own |
| PortableVaultBroker.PackageUnlocksExactlyWhen | src/crypto/portable-vault-broker-envelope.ts:93-164 | Cached material makes a package if and only if it is the session key's, and the package gives that key back by a 40-byte blob to whoever has the unlock key and expects the scope |
| PortableVaultBroker.ExportedPackageUnlocksExactlyWhen | src/crypto/portable-vault-broker-envelope.ts:93-107 | With nothing cached, a package is made if and only if the key is exportable, and gives it back |
| PortableVaultBroker.EnrolWithSessionCache | src/browser/portable-vault-broker.ts:74-114 | The package is the one of the cached material, or of the exportable key if nothing is cached; on success the fresh unlock key is the one array left, on failure none is, and cached material that failed in a live session is dropped |
| DuressSequence.ContainsDuressSequence | src/emergency/contains-duress-sequence.ts:7-29 | True if and only if the sequence is a non-empty contiguous run of the password's code points within the length cap, with a number of comparisons that depends on lengths alone |
| DuressSequence.SearchAll | src/emergency/contains-duress-sequence.ts:18-28 | The OR accumulator ends at one if and only if the sequence occurs somewhere, after every start and offset was compared |
| DuressSequence.LongerNeverOccurs | src/emergency/contains-duress-sequence.ts:11-11 | A sequence of more code units than the password never occurs in it, so the early refusal changes no answer |
| DuressSequence.ContainsExactlyWhen | src/emergency/contains-duress-sequence.ts:14-28 | The sequence occurs if and only if the password is something, the sequence, and something again |
| DuressSequence.DuressExactlyWhen | src/emergency/contains-duress-sequence.ts:1-13 | The cap is 256 code units for each, and an empty sequence never signals duress |
| DuressSequence.CodePointsAre | src/emergency/contains-duress-sequence.ts:14-15 | A text without surrogates is its own code points, and a surrogate pair is one |
| EmergencyRouting.ResolveVaultUnlockTarget | src/emergency/unlock-routing.ts:21-34 | The decoy if and only if emergency mode, the signal or the typed duress sequence asks for it |
| EmergencyRouting.TargetIsRoutedRole | src/emergency/browser-emergency.ts:142-158 | The vault chosen for a routed unlock is the role the session event installs it in |
| EmergencyRouting.RoutedPasswordExactlyWhen | src/emergency/browser-emergency.ts:92-104 | A routed password unlock opens to a key and role if and only if the password opens to that key the envelope of the vault that the flag, the session mode and the typed sequence choose |
| EmergencyRouting.RoutedPasskeyExactlyWhen | src/emergency/browser-emergency.ts:106-118 | The same of a passkey, where a decoy without a passkey envelope has the primary one |
| EmergencyRouting.PasswordInstallsItsVault | src/emergency/browser-emergency.ts:139-166 | However it is interleaved, a password unlock that goes through installs the decoy key in the decoy role, in pinned emergency mode, if and only if the flag, the session mode or the typed sequence asked for it at its start, and otherwise the primary key in the primary role |
| EmergencyRouting.PasskeyInstallsItsVault | src/emergency/browser-emergency.ts:106-197 | The same of a passkey unlock, whose decoy key is the decoy envelope's own if there is one and otherwise the primary one |
| EmergencyRouting.NormalShowsExactlyThePrimary | src/emergency/unlock-routing.ts:39-55 | In every reachable state in normal mode a decryption gives a text if and only if the primary blob is stored as the payload record of the scope and holds that text under the key; any other decoy, or none, gives the same answers |
| EmergencyRouting.PrimaryUnlockShowsThePrimary | src/emergency/browser-emergency.ts:139-166 | A password unlock that nothing diverted and no emergency overtook ends in normal mode and shows exactly the primary blob |
| EmergencyRouting.StoredPayloadIsShownExactlyWhen | src/payload/encrypted-payload.ts:11-37 | A payload stored for the scope is shown again, in each mode its own, if and only if its text fits in 64 KiB of UTF-8, has no lone surrogate and no leading byte order mark |
| EmergencyRouting.EmergencyRefusals | src/emergency/unlock-routing.ts:44-70 | In an emergency a missing decoy blob and one that is the primary blob are refused as such, whatever the key |
| EmergencyRouting.PinnedRunShowsOnlyTheDecoy | src/emergency/decrypt-for-session.ts:25-48 | Once emergency mode is pinned, after every run that does not end it, a session decryption in the default mode gives a text if and only if the decoy blob is there, is not the primary one, and holds that text under the key |
| EmergencyRouting.DecoyKeyShowsOnlyTheDecoy | src/session/memory-session.ts:22-34 | The same in every reachable state with a decoy key installed, even once the pin is cleared |
| EmergencyRouting.DuressShowsOnlyTheDecoy | src/emergency/browser-emergency.ts:139-166 | The same from the commit of a password unlock under duress or in an emergency on, in every run that does not end the emergency |
| EmergencyRouting.EmergencyIsBlindToThePrimary | src/emergency/unlock-routing.ts:39-81 | In every such run, a record with the same decoy and another primary blob gives the same decryptions |
| EmergencyRouting.BorrowedPasskeyShowsNothing | src/emergency/browser-emergency.ts:106-118 | Without a passkey envelope of its own for the decoy, a passkey unlock in an emergency installs the primary key in the decoy role, which decrypts nothing in any run that does not end the emergency |

## Left out

- Cleanup handlers, subscribers and callbacks that call back into the session: they are no-ops here.
- Forged operation and lease objects: every token and lease is one the session issued.
- Timers that fire late, and clocks that go back: time only moves forward, and a due timer fires when time passes.
- Code between two `await`s that another document or worker interrupts: each stretch is one step.
- SessionImplementation.VaultSession.CommitCache: names arrays by identity only; `InnerKeyMaterialCache` has the arrays themselves, without the interleavings.
- Reading and writing the user's auto-lock preference in browser storage.
- AutoLockMinutes.MinutesAreWholeAndBounded: uses exact reals, so it does not model rounding of doubles near halves.
- OverlayPanels.OverlayCoversExactly: uses exact reals, so it does not model rounding of pixel coordinates, and asks for holes as the DOM measures them, never inside out; `SplitsExactlyWhen` says what happens otherwise.
- PlaintextReject.RejectVaultPlaintextFields: `toLowerCase` is a parameter; getters, proxies and prototype fields are not modelled.
- The scan for sentinel values in src/validation/plaintext-reject.ts: a containment test over all strings.
- PublicMetadata.AssertJsonMetadata: does not model the limit on the serialized size nor the plaintext check that assertSafeVaultPublicMetadata adds.
- FixedWindowTheorems.SlidingWindowBound: asks for max of at least 1, a positive window and an ordered clock, as the configuration schema and the platform give them.
- VaultUnlockRateLimit.FailingAttemptsAreBounded: covers attempts made one after the other, not attempts that overlap between check and consume, and not a bucket that a full map evicts; `LockoutsForgottenWithoutRoom` says what happens then.
- AesGcm.OpensOnlyForItsAad: rests on the ideal cipher described above; version and algorithm labels, which are constants, and malformed base64url in stored IVs and ciphertexts are not modelled.
- AadRouting.RoutingExactlyWhen: covers plaintexts that are base64url text, as the library seals them; `UnlockIsSound` covers all. The decryption callback is fixed to unwrapping with the derived key.
- Rotation.AddsPasskeyExactlyWhen: does not model the checks of the credential identifier and of the public metadata.
- Rotation.RotatesRecoveryExactlyWhen: the recovery kit text is not modelled, and a generated phrase is a parameter like a given one.
- SensitiveBuffers.UnwrapUserVaultKey: follows the arrays the functions keep; the copies that `toBufferSource` hands to the platform, and strings, are not followed and are not zeroed by the code. rotateVaultPassword, unwrapUserVaultKeyWithPrfOutput and createPasskeyPrfEnvelopeWithSessionCache leave a blob without zeroing it, so nothing is claimed of theirs.
- InnerKeyMaterialCache.Cache.CreatePasskeyEnvelopeWithSessionCache: several guard checks after the first are one, as a superseded operation stays superseded.
- PortableVaultBroker.UnlockPortableVaultBrokerResponse: parsing of the response, ECDH, HKDF and the receipt's verification are parameters.
- EmergencyRouting.PasswordInstallsItsVault: ties key handles to their bytes by a parameter, and the unlock's steps to the session's events; the callback after entering an emergency is not modelled.
- Candidate lists of passkey envelopes (src/envelopes/passkey-prf-candidates.ts): the same unlock in a loop.
- Parsing and schema validation of decrypted payloads, administrator configuration, device binding, WebAuthn preparation, React components, demo application, storage and routes: tables, glue and input/output.
- The indices asked for when a recovery phrase is confirmed: their generator works beyond exact integers.
