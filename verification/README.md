# A verified model of the credential broker's protocols

The auth service hands out and withdraws access to workspace slots. Underneath its HTTP surface are
a handful of small protocols over stores that can fail one by one: the PocketBase record of a slot,
Nomad's ACL tokens, MinIO's user secrets, an in-process cache, an in-process map of login codes and
a group's wrapped key. This project models those protocols in Dafny and proves what they keep over
every run and every pattern of failures.

| component | modules | form |
|---|---|---|
| slot lifecycle across three stores | `SlotStore`, `Lifecycle`, `BrokerService` | `Broker` is a class updated in place by one upstream call after another; each handler is proved to leave, call by call, the trail of store contents `Lifecycle` defines, and to touch no other slot |
| the same handlers interleaved patch by patch | `Interleaving` | a step machine with the claim lock and a history of landed patches |
| slot-state cache and the forward-auth verdict | `SlotCache`, `Validate`, `Access` | a class for the critical sections, a step machine for their interleavings with patches, invalidations and the clock |
| one-time login codes | `MagicCodes` | a class with the sweeping loop, and a map that never sweeps as its reference |
| session cookie | `Session`, over `Base64`, `Decimal`, `GoStrings` | functions |
| KEK envelope and group key | `KekWrap`, `GroupKeys` | functions, a step machine for overlapping mints, a class for the handler |
| log scrub | `Redact` | loops proved against functions, recursion over attribute trees |
| identity, groups, namespaces | `Identity` | functions, and loops for the sort and the dedupe |
| per-slot secrets | `Secrets` | a class over the variable store |

Conventions and assumptions:

- A Go string is a sequence of bytes, one `char` each. White space and letter case are ASCII.
- An upstream call succeeds or fails; a failed one has no effect. Success flags, clocks, random bytes
  and freshly created credentials are parameters. Fresh values are new (`FreshCall`, `NewAccessor`,
  `FreshMint`), which follows from no value being issued twice (`IssuedOnceFresh`, `EverySlotFresh`).
- SHA-256 is any function without collisions or empty values (`GoodHash`). HKDF and AES-GCM are any
  functions that satisfy `Ideal`; `IdealExists` shows that some do. The session MAC is arbitrary.
- `Lifecycle` and `BrokerService` take the handlers of one slot one after the other, which is what
  agreement across stores needs; other slots may be served in between (`ServeRequests`,
  `RunProjects`). `Interleaving` drops that assumption for everything that rests on single patches,
  and gives the same records where nothing overlaps (`AloneIsHandler`, `AloneIsClaim`).
- Slot names, their MinIO users and their claim codes are unique. A live accessor on a record was
  created for that record's slot.

Where the code does less than its own comments or documents say, the model follows the code:

- `internal/authsvc/manage_lifecycle.go:94` says the next request is denied immediately. A stale
  write-back of an overlapping lookup can follow the invalidation; `ImmediateDenialExact` gives the
  exact condition, `BlockedWithinTTL` the bound that always holds.
- `internal/authsvc/redact.go:151` says a known secret never reaches the log. That holds under the
  condition of `NoSecretSurvivesExact` (for one secret, `LoneSecretExact`); `StartsInMarkerSurvives`,
  `BracketCounterexample` and `SafeAloneNotTogether` show secrets for which it fails.
- Conformance rule K-04 lets an empty group override mean the default namespace. The code uses the
  slot's own group. A put with an override naming another group succeeds and cannot be read back
  (`PutThenGet`).
- A suspend that answers 500 may already have deleted the token a claimed slot records
  (`RecordedLiveExact`). A claim or a flip that answers 500 may have changed the record
  (`ClaimFlipNotAtomicExact`), so a good claim code can be spent without its YAML (`ClaimLostExample`).
- A failed group lookup silently renders a config with a bare `su-` namespace, and the exchange
  answers an empty one (`BundleIsRenderExact`, and the group in `WroteReal` of `BlobEvent`).
- Overlapping mints of a group key can lower its version (`OverlapLowersVersion`); `PutVersionExact`
  says which put does, `VersionsCountExact` which runs keep count.
- A suspended slot without a MinIO access key is not blocked by `/validate` (`SuspendBlocksExact`).
- A claim or config read can answer 200 with nothing rendered (`EmptyAnswerExact`).
- Secrets of slots whose names contain '/' can collide (`PathsCollideExact` says which).

## Model

| member | source | states |
|---|---|---|
| BrokerService.Broker.HandleManageSuspend | internal/authsvc/manage_lifecycle.go:18-107 | suspending by name leaves exactly the specified sequence of contents of the three stores, whichever calls fail; every other slot, and every token and MinIO user outside the table, stays as it was, and no token is created |
| BrokerService.Broker.SuspendSlot | internal/authsvc/manage_lifecycle.go:45-106 | disable, revoke and patch in that order; the first two are best effort, a failed patch answers 500 |
| BrokerService.Broker.HandleManageReactivate | internal/authsvc/manage_lifecycle.go:118-202 | the same for reactivating; the only token that can be new is the one created |
| BrokerService.Broker.ReactivateSlot | internal/authsvc/manage_lifecycle.go:144-202 | enable, new secret, new token, one patch; every exit leaves exactly the effects of the calls before it |
| BrokerService.Broker.HandleManageRotate | internal/authsvc/manage_rotate.go:24-143 | the same for rotating, on claimed and suspended slots |
| BrokerService.Broker.RotateSlot | internal/authsvc/manage_rotate.go:50-142 | new secret, new token, patch, revocation of the old token, stable re-render, in that order |
| BrokerService.Broker.HandleCredSource | internal/authsvc/manage.go:41-148 | a flip patches and renders the record and touches no other store; it answers 200 unchanged when already there; the answer carries the new token exactly when it is a 200 that flipped to seedling/v1 |
| BrokerService.Broker.FlipSlot | internal/authsvc/manage.go:85-147 | the same once the slot is found |
| BrokerService.Broker.PatchAndRender | internal/authsvc/claim.go:123-136 | patch, then render: without the patch there is no render, and a failed render leaves the patch |
| BrokerService.Broker.HandleSlotsClaim | internal/authsvc/claim.go:46-151 | a claim affects only the unclaimed slot with its code and only its record; it answers with the blob then stored exactly with 200, and that answer is empty exactly when the record is on seedling/v1, no token was minted and it had no blob |
| BrokerService.Broker.ClaimSlot | internal/authsvc/claim.go:93-150 | the same once the slot is found; one patch, then the render |
| BrokerService.Broker.ResolveSource | internal/authsvc/claim.go:93-100 | request, then group default, then local |
| BrokerService.Broker.HandleSlotsMeConfig | internal/authsvc/slots.go:75-116 | the stored blob, or a render stored on demand; the answer is what the store then holds, and it is empty exactly for a seedling/v1 slot without a blob, for which nothing is rendered |
| BrokerService.Broker.PersistSlotConfig | internal/authsvc/slots.go:18-41 | the blob is rendered from the record as read and stored; a seedling/v1 blob without its token is returned unchanged, even when there is none |
| BrokerService.Broker.FinishRotate | internal/authsvc/manage_rotate.go:100-128 | after the patch, failures of the revocation or the re-render change neither the credentials nor the answer |
| BrokerService.Broker.RenewUpstream | internal/authsvc/manage_rotate.go:69-85 | secret before token, stopping at the first failure, without touching the record |
| BrokerService.Broker.RenewCreds | internal/authsvc/manage_rotate.go:69-98 | and then one patch, only when both succeeded |
| BrokerService.IndexByClaimCode | internal/authsvc/claim.go:82-91 | finds an unclaimed slot with the code whenever there is one |
| BrokerService.Broker.ServeRequests | internal/authsvc/server.go:112-119 | any sequence of requests served one after the other keeps the broker valid, leaves the stores exactly as the composed handler runs say, and answers each request as its run does; the only assumption on upstreams is that no value is issued twice |
| BrokerService.Broker.ServeRequest | internal/authsvc/server.go:112-119 | one request of any kind does to the stores what its run says, to the slot it names or the unclaimed slot with its code |
| BrokerService.RunProjects | internal/authsvc/manage_rotate.go:87-106 | requests on other slots never matter: over a whole run of the broker each slot lives through exactly the run of its own requests, found by name or by code in the records of the moment |
| BrokerService.EverySlotFresh | internal/authsvc/render.go:86-95 | values issued once over the whole broker are fresh for every slot at every one of its calls, so every theorem about a slot holds of every slot of a run |
| BrokerService.TableAgreesExact | internal/authsvc/manage_rotate.go:69-98 | after any run over the whole table PocketBase and MinIO agree on all secrets if and only if no slot's last secret change belongs to a failed request |
| Lifecycle.SuspendOutcome | internal/authsvc/manage_lifecycle.go:45-106 | a suspend answers 200 exactly when the record is read, claimed and patched, 400 exactly when it is read and not claimed; its whole effect on record, secret and tokens |
| Lifecycle.ReactivateOutcome | internal/authsvc/manage_lifecycle.go:144-202 | the same for a reactivate, whose guard is "suspended" and which stops at the first failed secret, token or patch |
| Lifecycle.RotateOutcome | internal/authsvc/manage_rotate.go:50-142 | the same for a rotate, whose guard admits "claimed" and "suspended" |
| Lifecycle.ReadOutcome | internal/authsvc/slots.go:75-108 | a read answers 200 exactly when the record is read, claimed, and has a blob or its render persists; 403 exactly when it is read and not claimed, whatever is stored |
| Lifecycle.NoConfigWhileSuspended | internal/authsvc/slots.go:85-92 | from a 200 suspend to the next 200 reactivate no read of the config is answered with one, whatever happens in between |
| Lifecycle.StateExact | internal/authsvc/manage_lifecycle.go:86-92 | the only calls that change a slot's state are a 200 suspend, a 200 reactivate and a claim whose patch lands |
| Lifecycle.PersistExact | internal/authsvc/slots.go:18-41 | when a render succeeds, by source, token in hand and upstream calls |
| Lifecycle.ClaimOutcome | internal/authsvc/claim.go:58-127 | when a claim answers 400 or 404, and exactly when its patch lands |
| Lifecycle.ClaimedRecord | internal/authsvc/claim.go:93-136 | what a landed claim makes of the record: seedling/v1 with the new hash if the request or else the group default says so, otherwise its source is left alone; 200 exactly if the render then succeeds |
| Lifecycle.FlipOutcome | internal/authsvc/manage.go:64-137 | when a flip answers 400, when it is already there, and exactly when its patch lands |
| Lifecycle.FlippedRecord | internal/authsvc/manage.go:106-137 | what a landed flip makes of the record, and when it answers 200 |
| Lifecycle.EnabledExact | internal/authsvc/manage_lifecycle.go:55-61 | the MinIO user is off after a suspend past its guard whose disabling succeeds, on after a reactivate past its guard whose enabling succeeds, from the call's first step on, and otherwise as it was |
| Lifecycle.EnabledOverRuns | internal/authsvc/manage_lifecycle.go:163-166 | over whole runs it is what the last such call made it |
| Lifecycle.DisabledThroughout | internal/authsvc/manage_lifecycle.go:55-61 | a disabled user stays disabled at every step of every call until a reactivate enables it |
| Lifecycle.RotateNeverRecordsDead | internal/authsvc/manage_rotate.go:87-106 | a recorded token that is live stays live at every intermediate step and every exit of a rotation |
| Lifecycle.RecordedLiveExact | internal/authsvc/manage_lifecycle.go:73-92 | after any call the recorded token is live if and only if the call recorded a fresh one, or it was live and no suspend deleted it |
| Lifecycle.RecordedLiveThroughout | internal/authsvc/manage_lifecycle.go:168-193 | over whole runs, until a suspend deletes it, the recorded token is live at every step of every call |
| Lifecycle.LeakExact | internal/authsvc/manage_rotate.go:78-106 | one call orphans exactly as many live tokens as its branch says: created but unrecorded, undeleted by rotate, or overwritten live by reactivate |
| Lifecycle.TokenAccounting | internal/authsvc/manage_rotate.go:78-106 | over whole runs the live tokens of a slot are its recorded one, if live, plus exactly one per such leak |
| Lifecycle.AgreementStep | internal/authsvc/manage_lifecycle.go:168-193 | one call leaves the record and MinIO in agreement if and only if it changed MinIO's secret and answered 200, or changed nothing and they agreed |
| Lifecycle.AgreementExact | internal/authsvc/manage_rotate.go:69-98 | over whole runs they disagree if and only if the last call that changed MinIO's secret failed |
| Lifecycle.SelfHealing | internal/authsvc/manage_rotate.go:69-98 | whatever came before, a run ending in a 200 rotate or reactivate ends with agreeing secrets and a live recorded token |
| Lifecycle.RecordAtomic | internal/authsvc/manage_lifecycle.go:86-92 | suspend, reactivate and rotate change the record's credential and state fields all at once on 200, and never otherwise |
| Lifecycle.ClaimFlipNotAtomicExact | internal/authsvc/claim.go:123-136 | a claim or flip fails with the record changed if and only if its patch lands and the render after it fails |
| Lifecycle.ClaimLostExample | internal/authsvc/claim.go:123-136 | a concrete claim that consumes a good code and answers 500 |
| Lifecycle.BlobStep | internal/authsvc/slots.go:18-41 | each call moves the agreement of blob and record as its branch says |
| Lifecycle.BlobAgreementExact | internal/authsvc/slots.go:18-41 | over whole runs the blob equals a render of the current record if and only if the history of writes says so; reactivate and unpersisted rotates make it stale, the next successful render clears it |
| Lifecycle.RenderInSyncExact | internal/authsvc/manage_rotate.go:114-128 | after any run that ends in a 200 claim or changing flip, or in a 200 rotate whose persist succeeded, a local blob equals the render of its record if and only if the group lookup answered a name of the slot's namespace; a seedling/v1 one always does if a token was just minted, and otherwise if and only if it did before |
| Lifecycle.EmptyAnswerExact | internal/authsvc/slots.go:25-28 | a 200 claim or read leaves no config at all if and only if the record is on seedling/v1, no token is in hand and there was no blob |
| Lifecycle.EmptyConfigExamples | internal/authsvc/slots.go:94-109 | both ways this happens: a seedling/v1 claim whose render failed and is then read, and a "local" claim on a row that is on seedling/v1 |
| Lifecycle.IssuedOnceFresh | internal/authsvc/render.go:86-95 | values that are issued once are fresh at every call of a run |
| Lifecycle.InSyncShape | internal/authsvc/render.go:23-84 | being some render of the record means the real credentials for a local slot, and a token with the stored hash for a seedling/v1 one |
| Lifecycle.SeedlingBlobStable | internal/authsvc/slots.go:25-28 | rotate, suspend and reactivate leave a seedling/v1 blob unchanged at every step |
| Access.SuspendBlocksExact | internal/authsvc/manage_lifecycle.go:50-95 | after a 200 suspend the MinIO user it disabled is one /validate looks up and blocks, if and only if the slot has an access key; without one that user is let in |
| Access.MinioUserExact | internal/authsvc/manage_lifecycle.go:50-53 | the MinIO user of a slot is its access key, or "slot-" and its name when it has none |
| SlotStore.NormalExact | internal/authsvc/render.go:25-25 | a source is read whatever white space is around it and whatever its case |
| Interleaving.RunSeparate | internal/authsvc/claim.go:79-127 | over every interleaving a claim under the lock holds a slot that is still unclaimed and every other handler one that is not |
| Interleaving.RunFaithful | internal/authsvc/manage.go:106-137 | over every interleaving each record's state, source and hash are what the history of landed patches says |
| Interleaving.RunDistinct | internal/authsvc/render.go:86-95 | no opaque token ever stands, or is about to stand, for two slots |
| Interleaving.ExchangeExact | internal/authsvc/exchange.go:70-88 | over every interleaving a token exchanges to a slot if and only if the slot is claimed and the token is the last one patched in with no later flip to local; the wrong-source answer is unreachable |
| Interleaving.ExchangeOutcome | internal/authsvc/exchange.go:65-88 | on any records: nothing without a claimed slot under the token's hash, its bundle if it is on seedling/v1, the wrong-source error if it is not |
| Interleaving.GuardExact | internal/authsvc/manage_lifecycle.go:45-48 | an interleaved handler holds a patch exactly when some inputs take it past its checks to that patch |
| Interleaving.BundleIsRenderExact | internal/authsvc/exchange.go:90-112 | the exchanged bundle holds what a local config of the same record would, if and only if the group is known |
| Interleaving.AtMostOneClaimWins | internal/authsvc/claim.go:79-127 | over every interleaving and failure pattern a code is consumed at most once and at most one claim on it gets the YAML |
| Interleaving.ConsumedNeverFound | internal/authsvc/claim.go:82-91 | over every interleaving no later claim finds a slot for a consumed code |
| Interleaving.RunOncePerCode | internal/authsvc/claim.go:79-127 | the invariant behind it: every YAML answers for a consumption, and consumed codes belong to slots no handler makes unclaimed |
| Interleaving.AloneIsHandler | internal/authsvc/manage_rotate.go:50-128 | a suspend, reactivate, rotate or flip whose steps nothing comes between leaves the record exactly as its run does |
| Interleaving.AloneIsClaim | internal/authsvc/claim.go:79-151 | so does a claim, which wins exactly when it answers 200 |
| SlotCache.SlotStateCache.CachedSlotState | internal/authsvc/pocketbase.go:286-307 | run alone, a lookup answers from a young entry or else from the store, caching what it answers, failures included, under the time it started |
| SlotCache.SlotStateCache.InvalidateSlotState | internal/authsvc/pocketbase.go:252-256 | drops the user's entry and no other |
| SlotCache.AloneIsLookup | internal/authsvc/pocketbase.go:286-307 | the four sections run back to back are the sequential lookup |
| SlotCache.AnswerHolds | internal/authsvc/pocketbase.go:286-307 | what a miss answered, "none" and "error" included, is what every lookup of the user within the TTL answers, whatever the store says by then |
| SlotCache.BoundedStaleness | internal/authsvc/pocketbase.go:286-307 | over every interleaving the state a lookup returns was the store's answer, or its failure, at an instant later than the lookup's start minus the TTL |
| SlotCache.PatchSeenAfterTTL | internal/authsvc/pocketbase.go:286-307 | a patch nobody overrides is what every lookup starting a TTL later returns, unless a later fetch failed |
| SlotCache.ImmediateDenialExact | internal/authsvc/manage_lifecycle.go:94-95 | once the record is blocked, all later lookups are denied on every continuation if and only if nothing live that admits the user is cached or in flight |
| SlotCache.LoudAdmits | internal/authsvc/pocketbase.go:297-306 | otherwise a continuation exists, possibly through a stale write-back, that admits the user |
| SlotCache.InvalidateSettlesCache | internal/authsvc/pocketbase.go:252-256 | right after an invalidation denial is immediate if and only if no live admitting answer for the user is fetched and waiting to be written back |
| SlotCache.StaleWriteBackAdmits | internal/authsvc/manage_lifecycle.go:94-95 | a run from the initial state in which a lookup overlaps a suspend: the record is blocked and the cache invalidated, and the next lookup is admitted |
| Validate.Decide | internal/authsvc/validate.go:27-52 | the verdict joins cookie and slot state; a bad cookie leaves the cache alone, a good one leaves in it what a lookup of its user does |
| Validate.AdmittedExact | internal/authsvc/validate.go:27-52 | for every cookie: 200 for a user if and only if the cookie is that user's and the slot is neither "suspended" nor "expired"; every other answer is a 302, and only a blocked user's cookie is cleared |
| Validate.FailsOpen | internal/authsvc/pocketbase.go:284-306 | a user without a slot, or whose state cannot be fetched, is let in |
| Validate.BlockedWithinTTL | internal/authsvc/validate.go:39-51 | a TTL after an unoverridden block, any cookie of that user gets a 302 and is cleared, unless a fetch failed since |
| MagicCodes.MagicCodeStore.Issue | internal/authsvc/magic.go:41-60 | issuing removes exactly the expired entries and adds the new one; without randomness nothing changes |
| MagicCodes.MagicCodeStore.Redeem | internal/authsvc/magic.go:64-76 | redeeming removes the code whatever happens and returns it only up to its expiry |
| MagicCodes.MagicCodeStore.HandleRedeem | internal/authsvc/magic.go:194-215 | both consumers trim, refuse an empty code without touching the store, and redeem once |
| MagicCodes.SweepUnobservable | internal/authsvc/magic.go:41-76 | for every history every answer equals that of a store that never sweeps |
| MagicCodes.RedeemExact | internal/authsvc/magic.go:64-76 | a redemption admits exactly the entry last issued and not attempted since, up to and including its expiry |
| MagicCodes.SingleUse | internal/authsvc/minio_sso.go:23-37 | two admissions on one code, by either consumer, have an issue of that code between them |
| MagicCodes.NothingExpiredAfterIssue | internal/authsvc/magic.go:41-60 | after an issue no entry is expired if and only if the new one is not |
| Session.MakeVerify | internal/authsvc/session.go:28-72 | a minted token verifies to its user, colons included, up to and including the expiry second and never after |
| Session.VerifyExact | internal/authsvc/session.go:36-72 | a token is accepted for a user if and only if it decodes to a body of that user, an unexpired expiry and a hex signature that decodes to the MAC of exactly those two |
| Session.SignatureBinds | internal/authsvc/session.go:67-70 | a signature from one token is accepted on another only if the MACs of the two payloads are the same |
| Session.SignsExact | internal/authsvc/session.go:74-78 | a signature is the computed one if and only if it is lower-case hex of the MAC of the payload |
| Session.MakeExact | internal/authsvc/session.go:28-34 | a minted token is the padded base64url text of such a body |
| Session.GenuineUnique | internal/authsvc/session.go:50-72 | such a body names one user and one expiry only |
| Session.PaddingIrrelevant | internal/authsvc/session.go:82-87 | a cookie verifies alike with and without its padding, whatever its characters |
| KekWrap.AadInjective | internal/authsvc/kekwrap.go:41-43 | distinct ids or versions never share additional data, even when ids contain the separator |
| KekWrap.WrapBinds | internal/authsvc/kekwrap.go:49-117 | a wrapped secret opens under the same master key, id and version, and under no other |
| KekWrap.WrapLayout | internal/authsvc/kekwrap.go:49-80 | what is stored, byte by byte, with label, salt and nonce lengths written out; when a wrap is refused |
| KekWrap.UnwrapExact | internal/authsvc/kekwrap.go:84-117 | a stored text opens to a secret if and only if it is base64 of a blob sealing it for that id and version |
| KekWrap.OpensOnce | internal/authsvc/kekwrap.go:84-117 | a stored text opens under one id and version at most, whoever stored it |
| Base64.RoundTrip | internal/authsvc/kekwrap.go:76-92 | decoding undoes encoding in both alphabets, padded or not |
| Base64.AlphabetExact | internal/authsvc/kekwrap.go:79-79 | the two alphabets of RFC 4648 |
| Base64.SextetsExact | internal/authsvc/kekwrap.go:79-79 | three bytes are read as one number, most significant first |
| Base64.Vectors | internal/authsvc/kekwrap.go:79-79 | test vectors of section 10 of RFC 4648 |
| Base64.NewlinesSkipped | internal/authsvc/session.go:82-87 | the decoder skips line breaks wherever they are |
| Base64.ShortQuantum | internal/authsvc/session.go:82-87 | a last quantum of two characters ignores its unused bits and needs exactly its padding |
| Base64.ThreeQuantum | internal/authsvc/session.go:82-87 | so does one of three |
| Decimal.PrintParse | internal/authsvc/session.go:28-66 | parsing undoes printing for every 64-bit integer |
| Decimal.PrintExact | internal/authsvc/kekwrap.go:42-42 | printing is positional, without leading zeros, with a minus sign in front |
| Decimal.ParseExact | internal/authsvc/session.go:60-63 | parsing takes a plus sign and leading zeros |
| Decimal.ParseRefuses | internal/authsvc/session.go:60-63 | and no bare sign, blank or other character |
| GoStrings.TrimSpaceExact | internal/authsvc/magic.go:198-198 | trimming takes off all the white space around a text and nothing else |
| GoStrings.ToLowerExact | internal/authsvc/manage.go:64-64 | lower-casing maps the letters in place and keeps every other character |
| GoStrings.SplitExact | internal/authsvc/identity.go:80-80 | splitting gives the one list of pieces without separators that joins back to the text |
| GroupKeys.KeyBroker.HandleKeysMint | internal/authsvc/keys.go:142-204 | a mint lands one new key with the next version, or fails and changes nothing |
| GroupKeys.MintOnceExact | internal/authsvc/keys.go:165-204 | when a mint answers 200, 404, 409 or 500, and what a 200 stores: a wrap of the new identity for the next version of this group, beside its recipient |
| GroupKeys.RunConsistent | internal/authsvc/keys.go:165-190 | over every interleaving of mints the stored wrap opens, under the stored version, to an identity whose recipient is stored |
| GroupKeys.GetReleasesMatchingPair | internal/authsvc/keys.go:71-135 | after any interleaving a get releases exactly to a member whose group was read, is named, is provisioned and is the one asked for: "group:" and its name, the stored version and recipient, and that recipient's identity; otherwise it answers 409, 403, 404, or 500 for a failed read, and it never fails to unwrap |
| GroupKeys.SerialVersionsCount | internal/authsvc/keys.go:165-190 | without overlap the k-th successful mint has version k |
| GroupKeys.AloneIsMintOnce | internal/authsvc/keys.go:165-190 | a mint whose steps run back to back is the sequential mint: same record, one patch exactly with 200, and no trace left in it or any other mint |
| GroupKeys.RunVersionBounded | internal/authsvc/pocketbase_kek.go:43-55 | with overlap a version never exceeds the number of landed patches |
| GroupKeys.PlannedFromRead | internal/authsvc/keys.go:165-177 | over every interleaving a mint in flight carries the version that follows the record it read |
| GroupKeys.PutVersionExact | internal/authsvc/keys.go:165-190 | a landed put raises the version by one if and only if the version planned from its read is still the next one, and lowers it if and only if that one is below the stored version |
| GroupKeys.UndisturbedPutCounts | internal/authsvc/keys.go:165-190 | in any interleaving a put with no other landed put since its own read raises the version by one |
| GroupKeys.VersionsCountExact | internal/authsvc/keys.go:165-190 | over every interleaving from an unprovisioned group the version counts the landed puts at every point if and only if no landed put was stale |
| GroupKeys.OverlapLowersVersion | internal/authsvc/keys.go:165-190 | for instance, with overlap a version can drop from 2 back to 1 |
| GroupKeys.RenameLocksOut | internal/authsvc/keys.go:93-128 | after any interleaving of mints, a get after a rename answers 500 if and only if the name changed |
| Redact.Scrub | internal/authsvc/redact.go:205-210 | the loop replaces the secrets one after another, in order |
| Redact.ScanTo | internal/authsvc/redact.go:205-210 | a replacement passes over the text before the first match, replaces the match, and goes on behind it |
| Redact.ReplaceHides | internal/authsvc/redact.go:205-210 | replacing one secret removes it and brings back no other, unless it completes one |
| Redact.LoneSecretExact | internal/authsvc/redact.go:205-210 | for every secret whatever: its own replacement never lets it survive, in any text, if and only if it does not complete itself |
| Redact.CompletesShape | internal/authsvc/redact.go:205-210 | and that means: it is not part of the marker, does not start as the marker ends, and has no end that meets a marker the scan would put there |
| Redact.NoSecretSurvives | internal/authsvc/redact.go:205-210 | no secret of a list in which none completes itself or an earlier one survives in any text |
| Redact.NoSecretSurvivesExact | internal/authsvc/redact.go:205-210 | and if and only if so, as long as no other secret of the list gets in the way of a completion |
| Redact.ApartNeverCompletes | internal/authsvc/redact.go:205-210 | secrets that never straddle a marker are completed by nothing unless they are part of it |
| Redact.StraddlesByBracket | internal/authsvc/redact.go:205-210 | and only secrets with brackets straddle |
| Redact.SafeAloneNotTogether | internal/authsvc/redact.go:205-210 | two secrets that are safe alone and not together |
| Redact.BracketRunAlone | internal/authsvc/redact.go:205-210 | a run of opening brackets straddles the marker and yet never survives alone |
| Redact.MarkerSurvives | internal/authsvc/redact.go:205-210 | a secret that is part of the marker survives every scrub of a text containing it |
| Redact.StartsInMarkerSurvives | internal/authsvc/redact.go:205-210 | a lone secret that starts as the marker ends always has a text it survives in |
| Redact.BracketCounterexample | internal/authsvc/redact.go:205-210 | a concrete secret, ending as the marker starts, that survives |
| Redact.ScrubKeepsClean | internal/authsvc/redact.go:205-210 | text without secrets passes unchanged |
| Redact.ScrubAttrHides | internal/authsvc/redact.go:212-225 | no secret of such a list survives in any string leaf at any depth of grouping |
| Redact.ScrubAttrHidesExact | internal/authsvc/redact.go:212-225 | and if and only if so, under the same proviso |
| Redact.ScrubAttrKeepsClean | internal/authsvc/redact.go:212-225 | an attribute whose leaves hold no secret is unchanged |
| Redact.ScrubAttrExact | internal/authsvc/redact.go:212-225 | scrubbing an attribute scrubs each of its string leaves and leaves keys, kinds, nesting and other values alone |
| Redact.WrapScrub | internal/authsvc/redact.go:163-178 | the kept secrets are exactly the trimmed ones of at least six bytes, once each, longest first |
| Redact.UsableInOrder | internal/authsvc/redact.go:164-172 | before they are sorted the kept secrets stand in the order they were first listed in |
| Redact.NothingListedSurvives | internal/authsvc/redact.go:163-210 | from raw list to log: no entry of at least six bytes after trimming shows in any scrubbed text |
| Redact.LongestFirstReplacesWhole | internal/authsvc/redact.go:176-176 | longest first replaces a secret whole, whatever shorter secrets it contains, when none is part of the marker |
| Redact.ShortestFirstLeaks | internal/authsvc/redact.go:176-176 | the other order leaves the rest of the longer secret in the log |
| Redact.ByLengthStable | internal/authsvc/redact.go:176-176 | the sort keeps the order among secrets of one length |
| Redact.SensitiveKeysMasked | internal/authsvc/redact.go:128-144 | no attribute under a sensitive key keeps its value, at any depth, whatever the other redactions do |
| Redact.SensitiveKeysExact | internal/authsvc/redact.go:51-74 | which keys are sensitive, in any case, and what is shown for them |
| Redact.RedactedLeaves | internal/authsvc/redact.go:128-144 | whatever the value patterns establish holds of every string leaf and of what stands for a masked value |
| Redact.RedactKeepsPlain | internal/authsvc/redact.go:128-144 | where no key is sensitive and the patterns find nothing, nothing is changed |
| Identity.IdentitiesAgreeExact | internal/authsvc/verify.go:48-107 | the two derivations of user, group, namespace and policies agree if and only if the token is not a client token without policies whose first role has no name |
| Identity.SameNamespace | internal/authsvc/naming.go:20-25 | two groups share a namespace if and only if they agree up to one prefix; the derivation is idempotent |
| Identity.GroupsFromPolicies | internal/authsvc/identity.go:74-110 | the result is strictly sorted and holds exactly the groups the policies name; "management" gives "*" |
| Identity.GroupOfExact | internal/authsvc/identity.go:81-104 | which group a trimmed policy names: "su-", the group and one of the three suffixes or none, or the plain group, each optionally after "member-", and never after "role:" |
| Identity.GroupsExact | internal/authsvc/identity.go:74-110 | a group is reported if and only if some comma-separated piece has such a shape for it |
| Identity.LexLessExact | internal/authsvc/identity.go:108-108 | the order of the result: a proper prefix first, otherwise the first difference decides |
| Identity.NomadIdentityExact | internal/authsvc/identity.go:18-60 | user, group, namespace and policies of a token, with every literal written out |
| Identity.HeadersExact | internal/authsvc/verify.go:48-107 | the type header, and the headers in the corner where the two derivations differ |
| Identity.GuessExact | internal/authsvc/identity.go:42-52 | which namespace is guessed for a group |
| Identity.SortStrings | internal/authsvc/identity.go:107-109 | sorting keeps exactly the elements |
| Identity.SortedDetermined | internal/authsvc/identity.go:107-109 | a strictly sorted list is determined by its elements, so the result is unique |
| Identity.GroupsCanonical | internal/authsvc/identity.go:74-110 | the result depends on the set of trimmed policies only and holds no empty name |
| Identity.GroupsUnion | internal/authsvc/identity.go:74-110 | concatenating two policy lists gives exactly the sorted union |
| Secrets.PathsCollideExact | internal/authsvc/secrets.go:72-84 | two slots can share a path if and only if one name extends the other by '/' |
| Secrets.KeyPathInjective | internal/authsvc/secrets.go:72-84 | slots neither of whose names extends the other never share a path |
| Secrets.PathInjective | internal/authsvc/secrets.go:72-84 | the same for any keys, trimmed or not |
| Secrets.CollisionNeedsSlash | internal/authsvc/secrets.go:72-84 | only a name with '/' in it extends or is extended |
| Secrets.SlashCollides | internal/authsvc/secrets.go:72-84 | for instance "a/b" extends "a" |
| Secrets.OverrideVisibleExact | internal/authsvc/secrets.go:72-84 | an override reaches the namespace that gets read if and only if it is empty or names the slot's own group up to the prefix |
| Secrets.SecretsBroker.HandleSecretsPut | internal/authsvc/secrets.go:89-129 | a put writes one variable, or answers 400 or 500 and writes nothing |
| Secrets.SecretsBroker.HandleSecretsGet | internal/authsvc/secrets.go:132-172 | a get answers the variable at the slot's own address, distinguishing bad key, failure and absence |
| Secrets.OthersDoNotInterfere | internal/authsvc/secrets.go:102-117 | no run of puts by slots of separate names, to other keys or to other namespaces changes what a slot reads |
| Secrets.InterferenceExact | internal/authsvc/secrets.go:102-157 | another slot of the same namespace can change what a slot reads if and only if their names are not separate |
| Secrets.PutThenGet | internal/authsvc/secrets.go:102-157 | after such a run a slot reads back what it put if and only if its override was visible; otherwise the put changed nothing it can read |
| Secrets.PutThenGetValue | internal/authsvc/secrets.go:176-186 | a string reads back as it is, null as the empty string, anything else as its encoding |
| Secrets.AddressExact | internal/authsvc/secrets.go:72-84 | where a slot's variables live, with every literal written out |
| Secrets.PutExact | internal/authsvc/secrets.go:102-129 | when a put answers 200, 400 or 500, and that only a 200 writes |
| Secrets.GetExact | internal/authsvc/secrets.go:145-172 | when a get finds a value, finds none, or refuses |

## Left out

- NoSecretSurvivesExact: is exact for a single secret and for lists in which the text that completes a secret holds no earlier secret, and what it turns into no later one (`Detached`; lists where nothing is completed, and lists with a part of the marker, always qualify). For other lists only the safe direction is proved (`NoSecretSurvives`): whether a secret that overlaps the completing text spoils it depends on every text that leads there.
- SensitiveKeysMasked: the regular-expression value patterns are an arbitrary function; what they match is not modelled.
- ScrubAttrHides: covers string leaves only, as the code does; attribute keys and values of other kinds pass through.
- ExchangeExact: the bundle's cluster endpoints, datacenters and pools are configuration and are not part of it.
- BlobAgreementExact: config blobs are structured values that carry the fields each shape depends on, not YAML text, and the cluster constants of the text are not part of them.
- AtMostOneClaimWins: says nothing of two processes; the lock is one process's.
- Renders between other patches in `Interleaving` are over-approximated by arbitrary blobs, which the token and claim theorems do not depend on.
- RunConsistent: the group's name is fixed during the run; `RenameLocksOut` says what a rename afterwards does.
- WrapBinds: cryptographic strength is idealised, not proved; so is the age recipient of an identity, an arbitrary function.
- OthersDoNotInterfere: the slot's group is the one resolved for the request; a membership change between put and get is not modelled.
- GroupsCanonical: is about policy strings other than "management", which maps to the single group "*".
- Agreement of the three stores when handlers of the same slot overlap: rotate, reactivate and suspend take no lock, and the model makes no claim there.
- Nomad role lookup, host credential files, config time stamps and the JupyterHub stop: best-effort effects with no modelled state.
- Routing, authentication of operators and slots, JSON decoding, headers, cookies' attributes, redirect targets and the login pages.
- Upstream HTTP clients, retries and admin-token refresh: each upstream call is one step that succeeds or fails.
- PocketBase filter syntax and quoting: a find is a search by a predicate on the records.
- `/validate-shadow`, health, log level and diagnostics: no lasting state.
- Unicode white space and case folding; slog attribute kinds beyond string, group and other.
