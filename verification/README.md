# Helling: verified models of its algorithms and its trust protocol

This project models the parts of Helling whose correctness is not visible in one function body, and proves what
they are for. `dafny verify dfyconfig.toml` checks everything. Each source file keeps its own form: what updates
state step by step is a class or a method with loops, proved against a specification function; what is made of
expressions is functions; the properties are lemmas about the specification.

**Login rate limiter** (`RateLimitSpec`, `RateLimit`, `RateLimitLaws`). A bounded map of stamp lists, compacted in place, pruned
only when touched, swept only when a new key meets a full map. The class refines `LazyStep`, on values, down to
the buffers that its slices share. The reference is a *ledger* that never forgets: all accepted attempts of a key
since its last Reset. With a clock that does not run back every answer is the ledger's, so pruning, the delete in
HitLimit and the sweep cannot be observed. From the ledger follow the sliding-window bound, that denied attempts
leave no trace, and when a lockout ends. The source reads the clock before it takes the lock, so the order of the
readings is a condition (`Timed`, and `orderly` in the class); `ClockMustNotRunBack` shows that whenever a reading is
older than one before it, however little, a run up to there exists that loses the bound. `docs/standards/security.md:48`
calls the limiter a token bucket; the code is a sliding window, and the code is what is modelled.

**Incus user trust** (`TrustNames`, `TrustHelper`, `TrustPolicy`, `TrustSteps`, `TrustService`, `TrustEffects`,
`TrustForecast`, `TrustSafety`, `TrustOutcomes`, `TrustRequests`). Provision and Revoke change two stores, the database row and the Incus trust set,
through one-time request files that a separate helper validates and consumes. Every step can fail, a plan says
which, and a call passes through a trail of worlds. `TrustEffects` says what each outcome leaves behind and
`TrustForecast` which outcome it will be, from the policies, the stores and the plan alone. On both rests
`TrustSafety`: what every call and every run leaves behind and what holds in between, each time with the exact
condition on what the calls are given. `TrustPolicy` says exactly which requests the helper accepts, on file names,
patterns and fields, and `TrustOutcomes` what callers get, on their own arguments. `TrustRequests` lets any number of helper processes interleave; `TrustNames`
proves that the name patterns read back what the service prints.

Two things the proofs bring out. The helper validates only the projects of a policy, so a policy may let a user
register but not revoke. Under such a policy moving a user to another project strands the new fingerprint: no step
fails, yet it stays trusted and no row names it (`RegisterOnlyStrands`; `FaultFreeSafe` gives the exact condition).
And a rollback writes `users.incus_project` from the row it restores. That is the old value because row and project
agree in every world the calls reach (`AgreementKept`).

**Event stream** (`EventsSpec`, `EventsStream`). Polled events are dispatched exactly once although only the last
1000 ids are remembered, because a poll shows only the last 50 events of the feed. The argument is about the pair: a
memory of two poll windows less one id is enough, and one id less is not (`CapNeeded`).

**Markdown fences** (`Text`, `FenceSpec`, `FenceBlocks`, `Fences`). The nested look-ahead loops of `fix_file` equal a one-pass
state machine, and running the script on its own output changes nothing.

**Base32 and TOTP** (`BitGroups`, `Base32`, `Totp`). The bit accumulator decodes what the service encodes (section
6 of RFC 4648); validation accepts exactly the codes of the current time step and its neighbours (section 5.3 of
RFC 4226, section 4.2 of RFC 6238).

**Firewall helper** (`FirewallGrammar`, `Firewall`, `FirewallForms`). The argument validators accept exactly the printings of valid
commands, and no two valid commands print alike.

**Password hashes** (`Numerals`, `Base64`, `Argon2id`, `Argon2Form`). Parsing a PHC string undoes printing it. The parser looks
neither at the text before the first `$` nor at what follows a number it has scanned; the model does the same.

**Journal fields** (`JournalField`, `Utf8`). Truncation yields the longest valid UTF-8 prefix (section 4 of RFC 3629).

## Model

| member | source | states |
|---|---|---|
| RateLimit.Compact | apps/hellingd/internal/auth/ratelimit.go:51-56 | Compacting in the slice's own buffer keeps exactly the stamps after the cutoff, in order |
| RateLimit.Append | apps/hellingd/internal/auth/ratelimit.go:61-62 | Go's append: the old elements and the new one, in the same buffer or in a new one |
| RateLimit.RateLimiter.constructor | apps/hellingd/internal/auth/ratelimit.go:26-32 | A new limiter holds nothing |
| RateLimit.RateLimiter.AllowLocked | apps/hellingd/internal/auth/ratelimit.go:43-63 | Under the lock, the map of slices and the answer become exactly those of the step on values; no two keys ever share a buffer |
| RateLimit.RateLimiter.HitLimitLocked | apps/hellingd/internal/auth/ratelimit.go:82-94 | The same for HitLimit, which prunes and drops an empty key |
| RateLimit.RateLimiter.GcAllLocked | apps/hellingd/internal/auth/ratelimit.go:97-111 | The sweep keeps the live stamps of every key and only the keys that have some, in whatever order the map is walked |
| RateLimit.RateLimiter.Allow | apps/hellingd/internal/auth/ratelimit.go:36-64 | While the clock has not run back: true exactly when fewer than limit accepted attempts are live and the key is live or fewer than 4096 keys are; only an accepted attempt is recorded |
| RateLimit.RateLimiter.HitLimit | apps/hellingd/internal/auth/ratelimit.go:75-95 | While the clock has not run back: true exactly when some and at least limit accepted attempts are live; the record of accepted attempts does not change |
| RateLimit.RateLimiter.Reset | apps/hellingd/internal/auth/ratelimit.go:67-71 | Forgets the accepted attempts of one key and nothing else |
| RateLimitSpec.StepAgrees | apps/hellingd/internal/auth/ratelimit.go:36-95 | One step: same answer as the never-pruned ledger, and the same live stamps for every key afterwards |
| RateLimitSpec.LimiterBehavesLikeLedger | apps/hellingd/internal/auth/ratelimit.go:36-111 | Over every run with a nondecreasing clock all answers are those of the ledger: lazy pruning, dropping and sweeping are unobservable |
| RateLimitSpec.MemoryBound | apps/hellingd/internal/auth/ratelimit.go:43-62 | Over every run, whatever the clock does: at most 4096 keys, at most limit stamps a key |
| RateLimitSpec.WindowBound | apps/hellingd/internal/auth/ratelimit.go:36-71 | In every half-open interval one window long a key has at most limit accepted attempts since its last Reset, whatever other keys do |
| RateLimitSpec.WindowIsHalfOpen | apps/hellingd/internal/auth/ratelimit.go:53 | The interval cannot be closed: an attempt exactly one window after another is allowed |
| RateLimitSpec.ClockMustNotRunBack | apps/hellingd/internal/auth/ratelimit.go:37-41 | For any two readings of which the later call has the older, there is a run, in order up to there, in which a key gets two attempts in one window under limit 1 |
| RateLimitSpec.DeniedLeaveNoTrace | apps/hellingd/internal/auth/ratelimit.go:43-63 | Deleting all denied attempts from a run leaves every other answer as it was |
| RateLimitSpec.LockoutEnds | apps/hellingd/internal/auth/ratelimit.go:57-60 | HitLimit is true exactly while the oldest of the last limit accepted attempts is in the window; then Allow refuses, and with fewer than 4096 live keys it refuses only then |
| RateLimitLaws.AnswersCount | apps/hellingd/internal/auth/ratelimit.go:36-95 | After any run in order, by counting accepted attempts less than a window old: Allow is true exactly when the key has fewer than limit, and some or fewer than 4096 keys have any; HitLimit exactly when it has some and at least limit |
| TrustNames.RequestMatcherIsThePattern | apps/hellingd/internal/incus/trust_helper.go:37 | The matcher finds an action, digits and fingerprint exactly when the request pattern holds with them |
| TrustNames.CertMatcherIsThePattern | apps/hellingd/internal/incus/trust_helper.go:36 | The same for certificate names |
| TrustNames.RequestNameInjective | apps/hellingd/internal/incus/user_trust.go:220 | Two printed request names are equal only if action, user id, fingerprint and token are |
| TrustHelper.RequestNameRoundTrip | apps/hellingd/internal/incus/trust_helper.go:221-243 | A name printed by the service is parsed back to its user id, for every positive int64 id |
| TrustHelper.AcceptedRequest | apps/hellingd/internal/incus/trust_helper.go:192-219 | Whatever the helper is called with, an accepted request was written for that action, user, fingerprint, certificate and (to register) project, and the policy permits it |
| TrustHelper.RegisterAccepted | apps/hellingd/internal/incus/trust_helper.go:70-97 | The request the service writes to register is accepted exactly when the policy permits it |
| TrustHelper.RevokeAccepted | apps/hellingd/internal/incus/trust_helper.go:113-120 | The request the service writes to revoke is accepted exactly when the policy permits it |
| TrustPolicy.OnlyThatPolicyDecides | apps/hellingd/internal/incus/trust_helper.go:255-284 | The file helling-user-<id>.json decides where it exists and default.json where it does not: two policy directories that agree on that file give every command for a request of the user the same result |
| TrustPolicy.RegisterLaw | apps/hellingd/internal/incus/trust_helper.go:70-97 | Exactly which register commands pass: valid fingerprint and project, both names of the patterns with the same user id, a written manifest with these very fields, a deciding policy for this user with valid projects that lists the project and the action, and a staged certificate with this fingerprint |
| TrustPolicy.RevokeLaw | apps/hellingd/internal/incus/trust_helper.go:113-120 | Exactly which revoke commands pass, in whatever project the request names |
| TrustPolicy.OwnRegisterAccepted | apps/hellingd/internal/incus/user_trust.go:206-248 | The service's own register request passes exactly when the deciding policy, read field by field, grants it |
| TrustPolicy.OwnRevokeAccepted | apps/hellingd/internal/incus/user_trust.go:206-248 | The same for revoke |
| TrustPolicy.ProjectNames | apps/hellingd/internal/incus/trust_helper.go:35 | Project names: an ASCII letter or digit, then at most 62 of those or of the signs _ . - |
| TrustPolicy.Fingerprints | apps/hellingd/internal/incus/trust_helper.go:34 | Fingerprints: 64 digits or small letters a to f |
| TrustPolicy.Names | apps/hellingd/internal/incus/trust_helper.go:36-37 | The fixed parts of the names that are matched |
| TrustRequests.ConservedStep | apps/hellingd/internal/incus/trust_helper.go:91-102 | Every step of any process keeps: times created = times run + processes holding it + 1 if still a file |
| TrustRequests.RequestsAreUsedOnce | apps/hellingd/internal/incus/user_trust.go:235-247 | In every interleaving, no request name is run more often than it was created |
| TrustRequests.CheckedIsAuthorised | apps/hellingd/internal/incus/trust_helper.go:192-219 | A process that passes its checks acts on a manifest that was created under its request name |
| TrustRequests.RunsAreAccountable | apps/hellingd/internal/incus/trust_helper.go:70-125 | In every interleaving, every incus command run repeats a created manifest that the policy permits, although files come and go between check and run |
| TrustRequests.ManifestsAreUsedOnce | apps/hellingd/internal/incus/user_trust.go:216-220 | If no name is created twice, as its random token makes sure, no two commands are run on one request and each repeats the one manifest created under its name |
| TrustRequests.OneManifestTwice | apps/hellingd/internal/incus/trust_helper.go:91-102 | If a name is created again with another project, an interleaving runs the first manifest twice and the second never |
| TrustRequests.FromEmpty | apps/hellingd/internal/incus/trust_helper.go:70-125 | Both, for every run from the empty system |
| TrustService.UserTrustService.WriteTrustRequest | apps/hellingd/internal/incus/user_trust.go:206-248 | Exclusive creation of the request; a write that fails halfway leaves a torn file |
| TrustService.UserTrustService.Register | apps/hellingd/internal/incus/trust_helper.go:70-111 | Consumes the request, then adds the fingerprint; nothing changes when a check fails |
| TrustService.UserTrustService.RevokeTrust | apps/hellingd/internal/incus/trust_helper.go:113-125 | Consumes the request, then removes the fingerprint |
| TrustService.UserTrustService.RevokeFingerprint | apps/hellingd/internal/incus/user_trust.go:158-167 | Request and helper run as one step with its trail |
| TrustService.UserTrustService.UpsertRow | apps/hellingd/internal/store/incus_certs.go:43-70 | Row and project change together or not at all; a fingerprint of another user is refused |
| TrustService.UserTrustService.RestoreRow | apps/hellingd/internal/store/incus_certs.go:74-121 | Restores a row that is complete, and the project with it |
| TrustService.UserTrustService.StageAndRequest | apps/hellingd/internal/incus/user_trust.go:102-132 | The staged certificate and the request for it |
| TrustService.UserTrustService.StoreNew | apps/hellingd/internal/incus/user_trust.go:56-69 | Storing the new row, with the compensation when that fails |
| TrustService.UserTrustService.RetirePrevious | apps/hellingd/internal/incus/user_trust.go:62-68 | Revoking the previous fingerprint, with both compensations when that fails |
| TrustService.UserTrustService.Provision | apps/hellingd/internal/incus/user_trust.go:41-70 | The method ends in the state, with the verdict and through the trail of worlds that the transition function gives, whichever steps fail |
| TrustService.UserTrustService.Revoke | apps/hellingd/internal/incus/user_trust.go:135-156 | The same for Revoke |
| TrustEffects.RegisterEffect | apps/hellingd/internal/incus/trust_helper.go:70-111 | Registering a certificate staged for a user moves only the trust of that fingerprint, to that user, and only if it succeeds |
| TrustEffects.ProvisionEffect | apps/hellingd/internal/incus/user_trust.go:41-70 | For every failure plan, rows, projects and trust end as the table of outcomes says |
| TrustForecast.RevokesExactly | apps/hellingd/internal/incus/user_trust.go:158-167 | Revoking a fingerprint succeeds exactly when its request can be written, is permitted by the policy and the run has no fault; success leaves no request file, failure at most its own |
| TrustForecast.RegistersExactly | apps/hellingd/internal/incus/user_trust.go:102-132 | The same for staging and registering a certificate |
| TrustForecast.ProvisionForeseen | apps/hellingd/internal/incus/user_trust.go:41-70 | For every failure plan the outcome is the one read off the policies, rows, request names and plan before the call; success leaves no request file |
| TrustForecast.UndoReadyCompensates | apps/hellingd/internal/incus/user_trust.go:56-68 | If the row can be restored, the undo has no fault and an unused request name, and the policy permits revoking in the new project, every compensation that becomes necessary is made, whatever else fails |
| TrustForecast.PolicyDecides | apps/hellingd/internal/incus/user_trust.go:41-70 | Without a fault the policy alone decides the outcome; register without revoke in the old project rolls back, and undoes the new trust only if revoking in the new project is permitted |
| TrustForecast.HealthyProvision | apps/hellingd/internal/incus/user_trust.go:41-70 | With no failing step a call succeeds exactly when the policy permits registering in the new project and revoking in the old one, and leaves no request file |
| TrustSafety.AllOrNothing | apps/hellingd/internal/incus/user_trust.go:41-70 | Success: the row is the new one, its fingerprint is trusted, the previous one is not, nothing else changes. Failure with all compensations made: rows and trust set equal those before, and, where rows and projects agree, so do the projects |
| TrustSafety.RollbackProject | apps/hellingd/internal/store/incus_certs.go:96 | After a rollback users.incus_project has its old value exactly when it agreed with the row before, as it does in every world the calls reach |
| TrustSafety.AgreementKept | apps/hellingd/internal/store/incus_certs.go:54-96 | However a call ends, users.incus_project stays the project of every active row |
| TrustSafety.MakeBeforeBreak | apps/hellingd/internal/incus/user_trust.go:53-68 | From an active, trusted row, the row's fingerprint is trusted in every intermediate world, except exactly when the old fingerprint cannot be revoked, the row not restored, and the new fingerprint revoked; stated on the outcome and on what the call is given |
| TrustSafety.NeverUncovered | apps/hellingd/internal/incus/user_trust.go:62-66 | A working restore of a complete row is enough for that, whichever other steps fail |
| TrustSafety.ProvisionSafe | apps/hellingd/internal/incus/user_trust.go:41-70 | A call from a safe state ends safe exactly when it is recoverable: read off policies, rows, request names and plan, what fails can be undone |
| TrustSafety.FaultFreeSafe | apps/hellingd/internal/incus/trust_helper.go:205-217 | With no failing step the end is safe exactly when a policy that permits registering in the new project permits revoking in the old one or in the new one |
| TrustSafety.RegisterOnlyStrands | apps/hellingd/internal/incus/trust_helper.go:286-299 | An input: under a valid policy that lists only register, a call without a fault ends with a trusted fingerprint that no row names |
| TrustSafety.RevokeEffect | apps/hellingd/internal/incus/user_trust.go:135-156 | Where Revoke can end: unchanged, fingerprint removed, or removed and the row marked |
| TrustSafety.RevokeSafe | apps/hellingd/internal/incus/user_trust.go:135-156 | Revoke keeps safety whichever steps fail; on success the user has no active row and no trusted fingerprint |
| TrustSafety.RunsAreSafe | apps/hellingd/internal/incus/user_trust.go:41-84 | Over any sequence of Provision and Revoke calls for any users: after every call whatever is trusted is the active fingerprint of the row of its user, exactly when every call is recoverable where it is made |
| TrustSafety.ReadyRunsAreSafe | apps/hellingd/internal/incus/user_trust.go:41-84 | Runs whose calls have a working restore and undo and a policy that permits revoking in the new project are safe after every call, keep every active row restorable and every project in agreement, whichever other steps fail |
| TrustSafety.AtMostOneTrusted | apps/hellingd/internal/incus/user_trust.go:41-84 | In a safe state a user has at most one trusted fingerprint |
| TrustSafety.OthersUntouched | apps/hellingd/internal/incus/user_trust.go:41-70 | However Provision ends, no other user's row and none of their trusted fingerprints change |
| TrustSafety.OthersUntouchedByRevoke | apps/hellingd/internal/incus/user_trust.go:135-156 | The same for Revoke |
| TrustOutcomes.ProvisionStores | apps/hellingd/internal/incus/user_trust.go:93-95 | After success, row, user and trust entry are in the project asked for, or in "default" when none was, and the row is the issued certificate field by field |
| TrustOutcomes.GrantDecides | apps/hellingd/internal/incus/user_trust.go:41-70 | A call without a fault succeeds exactly when the deciding policy grants registering in the project asked for (or "default") and revoking in the project of the active row |
| TrustOutcomes.RevokeForeseen | apps/hellingd/internal/incus/user_trust.go:135-156 | Exactly when Revoke succeeds; the fingerprint leaves the trust store exactly when it can be revoked, the row is marked exactly when marking works too, and no request file is left |
| TrustOutcomes.HealthyRevoke | apps/hellingd/internal/incus/user_trust.go:142-155 | Without a fault, revoking an active row succeeds exactly when the policy grants it, and then the row is marked and its fingerprint not trusted |
| TrustOutcomes.FingerprintsUnshared | apps/hellingd/internal/store/migrations/008_v02_platform_core.sql:84 | Whatever certificate is issued, no call makes two rows share a fingerprint |
| TrustOutcomes.RequestFiles | apps/hellingd/internal/incus/user_trust.go:206-248 | The file a request leaves: its manifest, torn when the write fails halfway, none when refused or the name is in use |
| TrustOutcomes.ConsumedBeforeRun | apps/hellingd/internal/incus/trust_helper.go:98-124 | Incus is changed only in worlds where the request file is gone |
| EventsStream.EventsStream.TrimSeenEvents | web/src/api/use-events-stream.ts:67-78 | Leaves the last 1000 ids |
| EventsStream.EventsStream.InvalidateEventQueries | web/src/api/use-events-stream.ts:80-95 | Offers each event in turn; the keys invalidated are those of the events newly dispatched, in order |
| EventsStream.EventsStream.Tick | web/src/api/use-events-stream.ts:106-119 | One poll, failed or fetched |
| EventsSpec.InstanceEvents | web/src/api/use-events-stream.ts:38-40 | Events instance.* and incus.instance.* invalidate the instances of Incus |
| EventsSpec.ContainerEvents | web/src/api/use-events-stream.ts:41-43 | Events container.* and podman.* invalidate the containers of Podman |
| EventsSpec.StorageEvents | web/src/api/use-events-stream.ts:44 | Events storage.* invalidate the storage pools |
| EventsSpec.NetworkEvents | web/src/api/use-events-stream.ts:45 | Events network.* invalidate the networks |
| EventsSpec.ImageEvents | web/src/api/use-events-stream.ts:46 | Events image.* invalidate the images |
| EventsSpec.OperationEvents | web/src/api/use-events-stream.ts:47-49 | Events operation.* and task.* invalidate the operations |
| EventsSpec.OtherEvents | web/src/api/use-events-stream.ts:50 | No other event invalidates anything |
| EventsSpec.SeenIsTheLastDispatched | web/src/api/use-events-stream.ts:67-95 | After any polls the seen ids are those of the last events dispatched, as many as the cap, and any cap + 1 dispatched in a row have different ids |
| EventsSpec.SeenInWindow | web/src/api/use-events-stream.ts:53-95 | With a cap of at least two windows less one, an event of the poll window is among the seen ids exactly when it was dispatched |
| EventsSpec.ExactlyOnce | web/src/api/use-events-stream.ts:53-119 | With unique ids, an append-only feed and polls of its last events in any order, every polled event is dispatched once and nothing else is, for every window and every cap of at least two windows less one |
| EventsSpec.TwiceBelow | web/src/api/use-events-stream.ts:67-95 | For every smaller cap, two polls of the whole window, newest first, dispatch the event they share twice |
| EventsSpec.CapNeeded | web/src/api/use-events-stream.ts:33-95 | Exactly-once holds over all feeds and runs if and only if the cap is at least two windows less one |
| EventsSpec.HookDispatchesOnce | web/src/api/use-events-stream.ts:33-56 | The hook's 1000 ids and 50 events satisfy it |
| EventsSpec.ForgottenIdReturns | web/src/api/use-events-stream.ts:67-86 | Without the window: an id that comes back is dispatched again exactly when at least as many others as the cap were dispatched after it |
| Text.JoinSplit | fix-md-fences.py:143-208 | Joining the split lines gives back the text |
| Text.SplitJoin | fix-md-fences.py:143-208 | Splitting joined lines gives them back, if none holds a line feed |
| FenceSpec.ScanIsThePatterns | fix-md-fences.py:150-151 | The scanner decides the two fence patterns, with the one possible indent and marker |
| FenceSpec.SameModes | fix-md-fences.py:153-206 | Labelling does not change which lines are inside a block |
| FenceSpec.SplitOfFixed | fix-md-fences.py:189-208 | The rewritten text has the same number of lines, each the rewriting of its line |
| FenceSpec.Idempotent | fix-md-fences.py:140-212 | For every text and every classifier a second pass, even with another classifier, changes nothing and reports nothing |
| FenceSpec.OnlyOpenersChange | fix-md-fences.py:153-206 | A line changes exactly when it is a bare fence met outside a block, and exactly the changed lines are reported; all others stay verbatim |
| FenceSpec.ClosersStay | fix-md-fences.py:165-198 | The line that closes a block is never labelled |
| FenceBlocks.BlockEnds | fix-md-fences.py:164-178 | A block ends with the first line of the pattern of its closing fence, with any indent, and with no other |
| FenceBlocks.BlockOpens | fix-md-fences.py:158-177 | Outside a block exactly the lines of the two fence patterns open one, of their marker |
| FenceBlocks.BlockIsLabeled | fix-md-fences.py:174-202 | A bare fence met outside a block becomes its indent, its marker and the label of the lines up to the first closing fence or the end; that change is reported, the lines and the closing fence stay, and the block is over |
| FenceBlocks.LabelCharacters | fix-md-fences.py:151 | The characters of a label |
| FenceBlocks.SpaceCharacters | fix-md-fences.py:150-151 | The characters that count as space |
| Fences.CopyBlock | fix-md-fences.py:165-171 | Copies verbatim to the line that ends the block, or to the end of the text |
| Fences.ScanAhead | fix-md-fences.py:180-185 | The collected lines are the block's body and stay unchanged |
| Fences.LabelBlock | fix-md-fences.py:174-202 | The block as the state machine rewrites it, and one change reported |
| Fences.FixFile | fix-md-fences.py:140-212 | The nested loops write and report what the one-pass state machine does; nothing is written when nothing changed or on a dry run |
| BitGroups.RoundTrip | apps/hellingd/internal/auth/totp.go:24-30 | Regrouping bytes into n-bit groups and back, for every length |
| Base32.SecretRoundTrip | apps/hellingd/internal/auth/totp_validate.go:58-100 | Decoding undoes unpadded base32, for every byte string |
| Base32.JunkIgnored | apps/hellingd/internal/auth/totp_validate.go:60-67 | Characters outside the alphabet can stand anywhere |
| Base32.CaseIgnored | apps/hellingd/internal/auth/totp_validate.go:62-63 | Lower case decodes as upper case |
| Base32.SecretLength | apps/hellingd/internal/auth/totp_validate.go:80-99 | n significant characters give floor(5n/8) bytes |
| Base32.BuildLookup | apps/hellingd/internal/auth/totp_validate.go:74-78 | The table holds the alphabet and each character's value |
| Base32.Push | apps/hellingd/internal/auth/totp_validate.go:91-97 | One character keeps: at most 7 bits held, their value below 2 to their number, and bytes out plus bits held are exactly the bits read |
| Base32.KeepBits | apps/hellingd/internal/auth/totp_validate.go:91 | The 16-bit shift never loses a bit: the word stays below 0x1000 |
| Base32.DecodeBase32 | apps/hellingd/internal/auth/totp_validate.go:58-100 | The loops compute the first floor(5n/8) bytes of the concatenated 5-bit values |
| Totp.SixDigitsOf | apps/hellingd/internal/auth/totp_validate.go:53 | A code has six digits and determines the number printed |
| Totp.TruncateOnBits | apps/hellingd/internal/auth/totp_validate.go:48-51 | Truncation on bits: the low four bits of the last byte say where four bytes are read; the number of their bits but the first, modulo one million (section 5.3 of RFC 4226) |
| Totp.CodeIs | apps/hellingd/internal/auth/totp_validate.go:48-53 | The code of a counter is the one string of six digits with that value |
| Totp.ComputeTotp | apps/hellingd/internal/auth/totp_validate.go:29-54 | Six digits with the value truncated from the MAC of counter floor(t/30) under the decoded key; empty for a negative time or an empty key; the 20-byte MAC is never read past its end |
| Totp.ValidateTOTP | apps/hellingd/internal/auth/totp_validate.go:14-26 | At any time, accepts exactly the strings of six digits with the value truncated from the MAC of the current counter or a nonnegative neighbour, when the key is not empty |
| Totp.DriftTolerated | apps/hellingd/internal/auth/totp_validate.go:19-24 | A code made up to thirty seconds before or after now is accepted |
| Totp.DriftBounded | apps/hellingd/internal/auth/totp_validate.go:19-24 | An accepted code is that of a moment less than sixty seconds away |
| FirewallGrammar.RuleIsUnambiguous | apps/hellingd/internal/firewall/helper.go:150-206 | Tokens are read as a rule exactly when that valid rule prints as them |
| FirewallGrammar.CommandIsUnambiguous | apps/hellingd/internal/firewall/helper.go:85-217 | No two valid commands print alike |
| Firewall.TokenReads | apps/hellingd/internal/firewall/helper.go:167-206 | Each step advances, stays inside the arguments, and reads one selector or the end of the rule |
| Firewall.ValidateAddRuleArgs | apps/hellingd/internal/firewall/helper.go:150-165 | The stepping loop accepts exactly a good target followed by a rule |
| Firewall.ValidateAddChainArgs | apps/hellingd/internal/firewall/helper.go:133-148 | Accepts exactly the chain definition of its chain |
| Firewall.ValidateNFTArgs | apps/hellingd/internal/firewall/helper.go:85-131 | Accepts exactly the printings of valid commands |
| Firewall.StoredRulesPass | apps/hellingd/internal/server/firewall_handlers.go:157-215 | Every rule the API accepts becomes a command line the helper accepts, for the rule that was stored |
| FirewallForms.PlainRules | apps/hellingd/internal/firewall/helper.go:150-186 | A rule without selectors is accepted exactly for chains input, output, forward, a helling comment, and accept, drop, reject |
| FirewallForms.PortRules | apps/hellingd/internal/firewall/helper.go:198-225 | A port is accepted exactly as a numeral from 1 to 65535 |
| FirewallForms.AddressRules | apps/hellingd/internal/firewall/helper.go:188-196 | An address is accepted exactly after saddr or daddr and if it is a CIDR |
| FirewallForms.Deletions | apps/hellingd/internal/firewall/helper.go:208-217 | A handle is accepted exactly as digits with a value of 1 to 2^63 - 1, with a plus sign or none |
| FirewallForms.Tables | apps/hellingd/internal/firewall/helper.go:107-124 | The table commands are accepted, and listing exactly for the three chains |
| FirewallForms.Chains | apps/hellingd/internal/firewall/helper.go:133-148 | The definition with which a chain is added |
| FirewallForms.ApiAgreesWithHelper | apps/hellingd/internal/server/firewall_handlers.go:157-215 | With a known protocol, a port only with tcp or udp and a helling comment, the API lets a rule through exactly when the helper accepts its command line |
| FirewallForms.StoredRulesDiffer | apps/hellingd/internal/server/firewall_handlers.go:199-215 | No two different rules that the API accepts become the same command line |
| Numerals.ParseDecimal | apps/hellingd/internal/incus/trust_helper.go:232 | Reading a printed number gives it back |
| Numerals.ParseIntIs | apps/hellingd/internal/firewall/helper.go:212 | Exactly the numerals that are read: a sign or none, then digits, with a value of 64 bits |
| Numerals.TenDigits | apps/hellingd/internal/incus/user_trust.go:220 | The digits, and that they are decimal |
| Base64.Alphabet | apps/hellingd/internal/auth/argon2id.go:57-58 | Table 1 of RFC 4648 |
| Base64.BreaksIgnored | apps/hellingd/internal/auth/argon2id.go:90-97 | Decoding skips a carriage return or line feed anywhere, as Go's does |
| Base64.DecodeEncode | apps/hellingd/internal/auth/argon2id.go:90-97 | Unpadded base64 round trip, for every byte string |
| Argon2id.ScanDecimal | apps/hellingd/internal/auth/argon2id.go:83-88 | A printed number is scanned up to the first character that is no digit, if it fits |
| Argon2id.DecodeEncoded | apps/hellingd/internal/auth/argon2id.go:53-102 | Parsing undoes printing, for all parameters, salts and keys |
| Argon2id.HashVerifies | apps/hellingd/internal/auth/argon2id.go:44-73 | A hash verifies with its own password, and with another exactly when the key function gives the same key |
| Argon2Form.DecodedForm | apps/hellingd/internal/auth/argon2id.go:76-102 | Exactly the strings that are parsed, and as what: six parts, argon2id, a version numeral of value 19, three costs within their widths, and two base64 strings |
| Argon2Form.VerifiedForm | apps/hellingd/internal/auth/argon2id.go:66-73 | Only strings of that form ever verify |
| Argon2Form.OnlyEmptyRefused | apps/hellingd/internal/auth/argon2id.go:45-47 | Hash refuses the empty password and no other |
| Argon2Form.Blanks | apps/hellingd/internal/auth/argon2id.go:83-88 | The blanks that fmt skips before a number |
| JournalField.ValidPrefixes | apps/hellingd/internal/audit/audit.go:83 | The valid prefixes of valid text are those that end at a character boundary |
| JournalField.CutStraddles | apps/hellingd/internal/audit/audit.go:83-86 | The last boundary not after the limit leaves a character that reaches beyond it |
| JournalField.TruncateJournalField | apps/hellingd/internal/audit/audit.go:76-87 | The longest valid prefix of at most maxBytes bytes; of valid text at most three bytes beyond the cut are dropped, all of one character |
| Utf8.ValidIsEncoded | apps/hellingd/internal/audit/audit.go:83 | The valid strings are exactly the UTF-8 encodings of sequences of scalar values (section 3 of RFC 3629), with the encoder written apart |
| Utf8.TruncatedText | apps/hellingd/internal/audit/audit.go:76-87 | Of encoded text, truncation keeps as many whole characters as fit |

## Left out

Whole parts of the repository:

- The web UI apart from the events hook, the CLI, the generated API server, the Incus and Podman proxies, metrics and log reading.
- Configuration defaults and range checks.
- validateDeleteOwnership: it searches nft's free-form output for substrings.
- The rest of the audit package: Emit only fills a map of fields.

Parameters and assumptions of the models:

- Cryptography: HMAC-SHA-1 (a function to 20 bytes), Argon2 (a function to keyLen bytes; it panics for zero time or threads, which is not modelled) and certificate issuing are parameters; a fresh certificate has a fingerprint that is not in use.
- net.ParseCIDR, the classifier of fence bodies (any function to a non-empty label) and random tokens and salts are parameters.
- Clocks are parameters. Times are integers without overflow.
- Strings are sequences of characters rather than UTF-8 bytes, except in JournalField.
- Error values: a failure is a verdict, a refusal or a boolean; the messages are not modelled.
- File modes, owners, symbolic links and JSON decoding: a request file is either written with its manifest or torn. A staged PEM file is represented by its fingerprint.
- Timestamps of rows (created_at, updated_at), and the encryption of stored certificates.
- The users table: updating a user's project always finds the user.
- The default project that Provision writes into the user it is given: the model passes it on instead.
- Steps of Provision and Revoke take effect or fail without effect, besides the halfway states of writing and of consuming a request.
- TrustService.UserTrustService.Register: a helper that reports failure after Incus has added the certificate is not modelled.
- TrustService.UserTrustService.RevokeTrust: a helper that reports failure after Incus has removed the fingerprint is not modelled.
- Deleting a user: the row goes with the user, which is code of the API and not of these calls.
- Calls of one service run one after the other in TrustSafety; only the helper processes interleave, in TrustRequests.
- Mounting the hook anew forgets the seen ids, and the events endpoint is taken to return the newest events of an append-only feed with unique ids; both belong to code outside the hook.
- Reading and writing files in fix_file, with Python's newline translation.
- RateLimit.RateLimiter.Allow: the loops that Allow, HitLimit and gcAllLocked repeat are one method here, and the lock itself is not modelled, so a call is one step.
- RateLimit.Append: the capacity Go chooses when it grows a slice; any larger buffer will do.
- Totp.ComputeTotp: the counter is not cut to 64 bits, which a time in seconds does not reach.
