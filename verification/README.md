# FamilyCards: a model of sync, blobs, sessions, rate limiting and codecs

A Dafny model of the parts of FamilyCards whose correctness spans several operations: the server's
sync protocol and blob store, its membership and session state, its rate limiter, and the text
formats that the mobile client and the server exchange with people.

- **Sync and blobs.** `SyncModel` says what a push batch (one transaction) and a page of changes
  (two separate reads) mean; `SyncWire` relates rows to pushed items; `Database`, `SyncRepository`
  and `SyncHandlers` update the tables in place and are proved against it. `SyncReplies` is about
  what a push is told. `SyncRuns` takes every interleaving of pushes, upload inserts, tombstone
  cleanups and collector deletes that work from stale lists; `Paging`, `HasMore` and `Convergence`
  are about what a puller ends up with, when it stops, and which concurrent edit survives.
  `BlobModel`, `BlobRefsText`, `BlobStore`, `BlobRepository`, `BlobHandlers` and `BlobGc` cover
  upload, download and one uninterrupted collection; `BlobFiles` and `BlobReaders` cover the
  interleavings of uploads, downloads and collections at the level of rows and files, and
  `BlobSystem` puts tables and files together.
- **Members and sessions.** `AuthModel` says what each transaction does; `AuthRuns` interleaves the
  requests, split where they read before their transaction, under a clock that does not go back.
  `Quotas`, `Membership` and `Sessions` say what every such run keeps, `AuthValid` puts it into one
  invariant, and `AuthServer` is the endpoints on tables updated in place, which keep that
  invariant. `AuthWitnesses` holds two runs.
- **Limiter.** `RateLimit`, `RateLimitRuns`, `RateLimitBounds`.
- **Codecs.** `RecoveryPhrase` (BIP-39, section "Generating the mnemonic") and `PhraseNumber` over `Bits`,
  `InviteCode`, `Fingerprint`, over `Text` and `Ascii`.

What the code turned out not to guarantee is stated exactly:

- `docs/SYNC.md:36` says that `has_more` is exact because revisions have no gaps. It is exact if
  and only if the row that carries `last_rev` still exists (`HasMore.HasMoreIsExactIff`). A tombstone
  cleanup can remove that row, and a client that pages until `has_more` is false then never stops
  (`HasMore.PullNeverStops`, `HasMore.StuckOnEmptyPages`, reachable by `HasMore.PurgedTopIsReachable`).
- `docs/SYNC.md:59` counts the orphan grace period from the last change. The code counts it from
  `created_at` (`server/internal/blobs/gc.go:77`), and the model follows the code. The documented
  week is granted if and only if the blob was not uploaded before the drop (`BlobGc.WeekFromDropIff`);
  `BlobGc.DroppedBlobIsKeptIff` says how long a blob is kept instead.
- Rows have their files all along a run if and only if no step removes a file whose row is back or
  inserts a row whose file is gone (`BlobFiles.RowsAlwaysHaveFilesIff`, `BlobFiles.InsertStrandsIff`);
  `BlobFiles.OverlapLosesFile` is a run with such a step.
- Even when rows always have their files, a download can meet a missing one: if and only if the
  collector completes its removal between the download's two reads and no upload writes the file after
  that (`BlobReaders.ApartDownloadMissesFileIff`, reached by `BlobReaders.CollectionOvertakesDownload`).
  With windows apart it does not happen while a live item refers to the blob (`BlobSystem.LiveBlobIsServed`).
- The limit of ten active devices holds without recoveries. A recovery exceeds it exactly when ten are
  active and none is the user's (`Quotas.RecoveryExceedsLimitIff`, reached by
  `AuthWitnesses.ElevenDevicesAreReachable`); `Quotas.DeviceLimitHolds` gives the bound that every run keeps.
- A login that names a revoked device of the same user succeeds, and the session it opens is refused
  (`Sessions.LoginIsLetThroughIff`, reached by `AuthWitnesses.RevokedLoginIsReachable`).
- A sweep of the limiter goes unnoticed if and only if the idle expiry (plus the one nanosecond of
  the strict comparison) is at least a minute (`RateLimitRuns.SweepUnobservableIff`), and windows are
  bounded under the same condition (`RateLimitBounds.WindowBoundIff`). The server uses an hour.

## Model

| member | source | states |
|---|---|---|
| SyncRuns.EveryReachableVaultIsValid | server/internal/sync/handlers.go:126-175 | In every reachable state item revisions are distinct and within 1..last_rev, and every blob of a live item has a row marked referenced, whatever pushes, uploads, cleanups and stale collector deletes interleave |
| SyncRuns.RunKeepsValid | server/internal/blobs/gc.go:43-134 | The same from any state that satisfies it, over any run |
| SyncRuns.StepKeepsValid | server/internal/blobs/repository.go:109-138 | One step keeps it: in particular the collector's re-checks inside its delete transactions suffice |
| SyncRuns.BatchAccounting | server/internal/sync/handlers.go:135-170 | Each row of a batch lands in exactly one of accepted and conflicts, both in batch order, and the accepted ones get last_rev + 1, last_rev + 2, ... without a gap |
| SyncRuns.BatchStores | server/internal/sync/repository.go:62-92 | After a batch an item is either untouched and not reported accepted, or is one of the pushed rows under the greatest revision reported for it |
| SyncRuns.ConflictMeansServerWins | server/internal/sync/handlers.go:146-155 | A conflict leaves the tables alone and reports a version that does not lose to the pushed one, or a tombstone at revision 0 for an item the server no longer has |
| SyncRuns.BatchConfirmsIff | server/internal/sync/handlers.go:157-169 | A batch sets the referenced flag of exactly the blobs its accepted rows refer to, and clears none |
| SyncRuns.ReferencedMeansPushed | server/internal/sync/repository.go:196-215 | In every run a blob counts as referenced only because a push once stored an item that refers to it |
| SyncWire.DecodesIff | server/internal/sync/handlers.go:190-270 | A pushed item decodes to a row if and only if it is that row on the wire, complete, and the row carries the pushing device; so decoding and encoding undo each other |
| SyncHandlers.Push | server/internal/sync/handlers.go:77-188 | In place: the request is refused with nothing changed, as bad or for a missing blob exactly when it is or names one, or else its reply accounts for every row of the batch; the invariant of all runs is kept |
| SyncReplies.PushReplies | server/internal/sync/handlers.go:91-187 | What every request is answered: the refusal it deserves, or in batch order the new revisions of the rows that win, for each other row the version that stands at its turn or a tombstone of revision 0, and the final revision |
| SyncReplies.VerdictIff | server/internal/sync/resolve.go:27-56 | A row of a batch is accepted exactly when, at its turn, it is based on the stored revision, or is later by time and then device id, or is new and says so |
| SyncReplies.ConflictsTell | server/internal/sync/handlers.go:148-155 | Each refused row is told the version the tables hold at its turn, at its place in the conflicts |
| Convergence.GoneStaysGone | server/internal/sync/resolve.go:38-41 | Over any run, an item that is gone comes back only by a push that takes it for new |
| SyncHandlers.ReadChanges | server/internal/sync/handlers.go:44-57 | The first read of a page: the first changes after the cursor, 200 of them unless the request names a limit, which counts from 1 to 500, and 500 for any other |
| SyncHandlers.GetChanges | server/internal/sync/handlers.go:30-75 | A page whose two reads see the same tables: its cursor and has_more follow from the rows and last_rev |
| SyncRepository.ListChanges | server/internal/sync/repository.go:118-149 | Items with rev > since in ascending order, at most limit of them, and none left out that comes before a listed one |
| SyncRepository.MissingBlobRefs | server/internal/sync/repository.go:151-194 | Exactly the ids without a row |
| SyncRepository.MarkBlobsReferenced | server/internal/sync/repository.go:196-215 | Sets the flag of the listed rows and of no other |
| SyncRepository.DeleteTombstonesOlderThan | server/internal/sync/repository.go:217-226 | Removes exactly the tombstones older than the cutoff and counts them; the invariant of all runs is kept |
| Paging.FinishedPullIsSnapshot | server/internal/sync/handlers.go:53-73 | A puller told there is no more holds the server's current version of every item the server has; any other id it holds was purged; anything may interleave between pages and between the two reads of a page |
| Paging.FinishedPullIsExactWithoutPurge | server/internal/sync/acceptance_test.go:102-124 | Without a purge along the way the replica equals the item table |
| Paging.PullInvariantHolds | server/internal/sync/handlers.go:53-67 | At every moment of every run the replica agrees with the server on every item the cursor has passed |
| Paging.StepMovesForward | server/internal/sync/repository.go:93-106 | A server step gives every item it changes a revision above the previous last_rev |
| Paging.OnlyPurgeRemoves | server/internal/sync/repository.go:217-226 | Only the cleanup removes items, and only old tombstones |
| Paging.PurgedItemStaysInCopy | server/internal/sync/repository.go:217-226 | An id the puller holds when its row is purged keeps its old version in the replica through every later pull, as long as nobody pushes it again |
| HasMore.HasMoreIsExactIff | server/internal/sync/handlers.go:64-73 | has_more is exact for every cursor and page size if and only if some item carries last_rev |
| HasMore.PurgeFreeRunKeepsTop | server/internal/sync/repository.go:97-106 | Every purge-free run keeps an item at last_rev |
| HasMore.PurgeKeepsTopIff | server/internal/sync/repository.go:220-226 | A purge loses that item exactly when it is a tombstone older than the cutoff |
| HasMore.PullTakesExactly | server/internal/sync/acceptance_test.go:102-124 | On a quiet server a pull facing n items takes exactly max(1, ceil(n / limit)) pages |
| HasMore.PullNeverStops | server/internal/sync/handlers.go:64-73 | Once the item at last_rev is gone, every page of a pull that starts below last_rev says there is more |
| HasMore.StuckOnEmptyPages | server/internal/sync/handlers.go:64-73 | Past the last item the pages are then one and the same empty page, over and over |
| HasMore.PurgedTopIsReachable | server/internal/sync/repository.go:220-226 | Two requests reach such a vault |
| Convergence.GreatestEditSurvives | server/internal/sync/resolve.go:38-56 | Any non-empty set of edits of one base revision with distinct (updated_at, device_id) leaves the greatest, in any split into batches and with anything else in between |
| Convergence.OrderDoesNotMatter | server/internal/sync/resolve.go:27-56 | Two runs that process the same edits in any two orders agree on everything but the revision |
| Convergence.RunSettles | server/internal/sync/handlers.go:135-170 | After a run the row is the fold of the conflict rule over the edits, under a new revision |
| Convergence.SurvivorIsGreatest | server/internal/sync/resolve.go:48-56 | The fold of the rule picks the greatest edit |
| Convergence.WinsIsStrictTotalOrder | server/internal/sync/resolve.go:48-56 | The tie-break is a strict total order on (updated_at, device_id) |
| StringOrder.BeforeIff | server/internal/sync/resolve.go:51-55 | The order on device ids: the first differing character decides, and a proper prefix comes first |
| BlobRefsText.LikeIsMembership | server/internal/blobs/repository.go:124-138 | For 64-character hex ids the quoted LIKE pattern occurs in the stored JSON text if and only if the id is in the array |
| BlobModel.TextLivenessIsLiveness | server/internal/blobs/repository.go:124-165 | So the text query and the set of live references agree |
| BlobRepository.IsBlobLive | server/internal/blobs/repository.go:124-138 | The counted matches say whether a live item refers to the blob |
| BlobRepository.LiveBlobRefs | server/internal/blobs/repository.go:140-165 | The collected set holds exactly the ids that live items refer to |
| BlobRepository.QueryBlobs | server/internal/blobs/repository.go:63-95 | Exactly the rows with the flag older than the cutoff, each once |
| BlobHandlers.Upload | server/internal/blobs/handlers.go:35-97 | Stores the bytes under their digest, keeps an existing file and row, refuses without any change, keeps files intact |
| BlobHandlers.Get | server/internal/blobs/handlers.go:99-129 | With nothing between its two reads the bytes returned hash to the id, and the two failures happen exactly without a row and without a file |
| BlobHandlers.ReadBlob | server/internal/blobs/handlers.go:120-129 | The second read on its own: a missing file exactly when there is none by then, else bytes that hash to the id |
| BlobReaders.ApartDownloadMissesFileIff | server/internal/blobs/handlers.go:110-124 | When upload and removal windows have not overlapped before it, a download that finds its row meets a missing file if and only if the collector completes the removal between the two reads and no upload writes the file after that |
| BlobReaders.DownloadMissesFileIff | server/internal/blobs/handlers.go:110-124 | The same from any state in which rows have their files; otherwise what is returned hashes to the id |
| BlobReaders.CollectionOvertakesDownload | server/internal/blobs/gc.go:52-64 | A run in which that happens although no windows overlap and rows have their files throughout |
| BlobStore.PathsDiffer | server/internal/blobs/store.go:26-35 | Different blobs have different paths |
| BlobStore.PathLayout | server/internal/blobs/store.go:14 | A blob lies two directories down, named by the first and next two digits of its id |
| BlobGc.RunGC | server/internal/blobs/gc.go:18-35 | Removes exactly the unconfirmed rows older than a day and the referenced rows older than a week that no live item refers to, with their files; the two counts sum to the drop in table size |
| BlobGc.CollectUnreferenced | server/internal/blobs/gc.go:37-67 | The first pass removes exactly the unconfirmed ones and counts them |
| BlobGc.CollectOrphaned | server/internal/blobs/gc.go:69-134 | The second pass removes exactly the orphaned ones and counts them |
| BlobGc.CollectingTwice | server/internal/blobs/gc.go:18-35 | A second collection at the same time finds nothing, and none ever takes a blob of a live item |
| BlobGc.CountsAddUp | server/internal/blobs/gc.go:22-35 | The two sets are what the table loses |
| BlobGc.SurvivorsKeepFiles | server/internal/blobs/gc.go:136-144 | No file of a surviving row is removed |
| BlobGc.UploadIsSafeForADayIff | server/internal/blobs/gc.go:43-67 | A new upload survives a collection if and only if it is at most a day old |
| BlobGc.GraceCountsFromFirstUpload | server/internal/blobs/gc.go:13-16 | Over every run in which the blob keeps its row, uploads of it again included, a collection keeps it exactly up to a day after its first upload, once confirmed a week, and beyond that exactly while a live item refers to it |
| BlobGc.DroppedBlobIsKeptIff | server/internal/blobs/gc.go:69-77 | After the push that drops a blob's last live reference a collection keeps it if and only if its upload is at most a week ago |
| BlobGc.WeekFromDropIff | server/internal/blobs/gc.go:18-22 | So the week counted from the drop is granted if and only if the blob was not uploaded before the drop |
| BlobFiles.RowsAlwaysHaveFilesIff | server/internal/blobs/handlers.go:74-86 | In every state of a run each row has its file if and only if it does at the start and no step removes a file whose row is back or inserts a row whose file is gone |
| BlobFiles.InsertStrandsIff | server/internal/blobs/handlers.go:74-86 | The insert of an upload strands its row exactly when the collector removed the file since the upload saw or wrote it, and nobody wrote it again |
| BlobFiles.FileGoneIff | server/internal/blobs/store.go:98-107 | Over any run, a file that was there is gone exactly when a removal of it completed and no write followed |
| BlobFiles.SoundIff | server/internal/blobs/handlers.go:74-86 | The invariant behind the next result says exactly that rows have files now and after the insert of any upload that is ready |
| BlobFiles.RowsHaveFilesWhenApart | server/internal/blobs/gc.go:52-64 | If the upload window and the row-to-file removal window of a blob never overlap, every row has its file with the right bytes |
| BlobFiles.OverlapLosesFile | server/internal/blobs/gc.go:52-64 | A run with overlapping windows that ends with a row without a file |
| BlobSystem.LiveBlobsAreOnDisk | server/internal/blobs/gc.go:43-134 | Tables and files together: as long as upload and removal windows do not overlap, every blob of a live item is on disk with the right bytes, through any pushes, cleanups and collections from stale lists |
| BlobSystem.LiveBlobIsServed | server/internal/blobs/handlers.go:99-129 | So a download that reads its file while a live item refers to the blob gets it |
| BlobSystem.Projects | server/internal/blobs/gc.go:52-64 | A run of tables and files together is a run of each part |
| Quotas.QuotaHolds | server/internal/membership/handlers.go:64-95 | In every run active users plus open invites stay within max_users and somebody stays active, even though the clock of an invite is read before its transaction |
| Membership.FiveAtMost | server/internal/auth/repository.go:67-72 | In every run enabled users and redeemable invites are never more than five together |
| Quotas.ValidInviteMeetsNoQuota | server/internal/membership/handlers.go:179-202 | Hence the quota refusal in a redemption is unreachable for a valid invite |
| Quotas.RedeemConserves | server/internal/membership/handlers.go:218-236 | A redemption turns one open invite into one active user |
| Membership.RedeemSucceedsIff | server/internal/membership/handlers.go:179-236 | In every valid state a redemption succeeds exactly for an open invite, a login not taken and fewer than ten active devices |
| Membership.RedeemMakes | server/internal/membership/handlers.go:218-236 | It makes that user, enabled, and that device, marks the invite used, and changes nothing else |
| Membership.InviteIsRedeemedOnce | server/internal/membership/repository.go:66-79 | After one redemption, and whatever follows but a deletion, any other of the same invite is told it is gone |
| Membership.InviteExpiresOnTime | server/internal/membership/handlers.go:64-65 | An unredeemed invite is told to be gone exactly once its hours have passed since the clock was read |
| Membership.DeletedInviteIsUnknown | server/internal/membership/handlers.go:278-291 | A deleted invite is not found until one is made under its code again |
| Membership.LoginsStayDistinct | server/internal/membership/handlers.go:204-208 | In every run no two users have logins that differ only in the case of ASCII letters |
| Membership.RemovalSucceedsIff | server/internal/membership/handlers.go:348-368 | A member can be removed exactly when somebody else is enabled, or the member is disabled already |
| Membership.LoginSucceedsIff | server/internal/auth/handlers.go:227-245 | A login on a device of one's own needs no room, one on a new device needs fewer than ten active ones |
| Membership.BootstrapSucceedsIff | server/internal/auth/handlers.go:107-135 | The server is set up exactly while it has no user, with that user, that device and room for five |
| Quotas.DeviceLimitHolds | server/internal/auth/handlers.go:227-245 | Without recoveries at most ten devices are active; in every run the devices beyond each user's first sum to at most nine |
| Quotas.SparesAddUp | server/internal/auth/repository.go:169-178 | That sum over users is the active devices less the users who have one |
| Quotas.RecoveryCounts | server/internal/auth/handlers.go:571-583 | What a recovery does to the number of active devices and of users who have one |
| Quotas.RecoveryExceedsLimitIff | server/internal/auth/handlers.go:571-583 | A recovery exceeds the limit exactly when ten devices are active and none is the user's |
| AuthWitnesses.ElevenDevicesAreReachable | server/internal/auth/handlers.go:571-583 | An admissible run from an empty server reaches eleven active devices of two users, which is the most the kept bound allows them |
| Sessions.TokensStayDistinct | server/internal/auth/handlers.go:285-347 | In every run current refresh hashes are pairwise distinct and none of them is retired, with refreshes split into read and transaction |
| Sessions.RevokedForever | server/internal/auth/repository.go:245-256 | A revoked device stays revoked and keeps its owner |
| Sessions.DecisionIff | server/internal/auth/handlers.go:285-336 | In every valid state a presented hash is decided as reuse exactly when it is retired, and rotated exactly when a device that is not revoked holds it |
| Sessions.ReadAnswersIff | server/internal/auth/handlers.go:285-336 | A refresh is turned away at once exactly when its token is neither retired nor held by a device that is not revoked |
| Sessions.RotationRetiresForOwner | server/internal/auth/repository.go:360-368 | A refresh that completes retires the token it was given for the owner of its device |
| Sessions.RetiredForever | server/internal/auth/repository.go:363-368 | Over any run a retired token stays retired, for the same user |
| Sessions.RotationHandsOver | server/internal/auth/handlers.go:301-324 | A refresh that completes succeeds, the new token is good for the device unless it was revoked meanwhile, and the old one is taken for stolen |
| Sessions.ReuseLocksOutEveryDevice | server/internal/auth/handlers.go:283-347 | Once a completed refresh has given a token up, presenting it again leads to a transaction after which no read of a refresh and no request authentication accepts any device that the owner of the refreshed device then has, ever after |
| Sessions.RefreshAfterRevocationIsFutile | server/internal/auth/handlers.go:285-324 | The only refresh of a revoked device that still succeeds is one whose read came before the revocation, and no later refresh accepts the token it hands out, nor anything the device |
| Sessions.RemovedMemberStaysOut | server/internal/membership/handlers.go:364-373 | A removed member is never authenticated again, and no refresh accepts a token of any device the member had |
| Sessions.LogoutLocksOut | server/internal/auth/handlers.go:349-362 | A device that logged out is accepted nowhere, ever after |
| Sessions.RecoveryLocksOutOthers | server/internal/auth/handlers.go:575-579 | Nor is any device a user had before recovering the account |
| Sessions.OnlyOwnStepsTouchDevice | server/internal/auth/repository.go:230-256 | In every run a step changes a device only on behalf of its owner or by removing the owner |
| Sessions.LoginIsLetThroughIff | server/internal/auth/handlers.go:226-246 | A successful login's token is on a device of its user; the session is let through, for that user in that vault only, if the account is enabled and a reused device was not revoked, and otherwise not at all |
| Sessions.NewMemberIsLetThrough | server/internal/membership/handlers.go:229-236 | The first session of a new member is let through, as that member only |
| Sessions.FirstMemberIsLetThrough | server/internal/auth/handlers.go:116-135 | So is the session the server is set up with |
| Sessions.RecoveredIsLetThroughIff | server/internal/auth/handlers.go:571-583 | The session of a recovered account is let through exactly when the account is enabled |
| AuthWitnesses.RevokedLoginIsReachable | server/internal/auth/handlers.go:228-233 | An admissible run after which a login on a revoked device answers success and is refused everywhere |
| AuthValid.RunKeepsValid | server/internal/storage/storage.go:74-98 | Quota, device bound, token and ownership invariants together are kept by every admissible run from any state that has them |
| AuthServer.AuthTables.Bootstrap | server/internal/auth/handlers.go:106-135 | In place and all or nothing, keeping the invariant of all runs: refused once a user exists |
| AuthServer.AuthTables.CreateInvite | server/internal/membership/handlers.go:64-95 | The check and the insert in place keep the quota although the clock was read earlier |
| AuthServer.AuthTables.RedeemInvite | server/internal/membership/handlers.go:179-236 | Checks in the code's order, then invite, user and device together or not at all, keeping the invariant; its quota refusal is never reached |
| AuthServer.AuthTables.RemoveMember | server/internal/membership/handlers.go:348-374 | Keeps the invariant, so the last active member stays; afterwards no claims of the removed user are accepted and all their devices are revoked and locked out |
| AuthServer.AuthTables.Login | server/internal/auth/handlers.go:204-246 | Reuses the user's own named device or creates one, keeping the device bound and the tokens distinct |
| AuthServer.AuthTables.GetDeviceByRefreshHash | server/internal/auth/repository.go:197-206 | The row the query picks is the only one that holds the hash |
| AuthServer.AuthTables.ReadRefresh | server/internal/auth/handlers.go:283-299 | The reads of a refresh and the answers they give at once; any other request may follow before the transaction |
| AuthServer.AuthTables.ReadLogout | server/internal/auth/handlers.go:349-358 | Finds the one device that holds the token, if any |
| AuthServer.AuthTables.FinishRequest | server/internal/auth/handlers.go:301-347 | The transaction, in whatever valid state it finds: a refresh gives its device the new token and retires the old one for the device's owner, a reuse locks out every device of the user, a logout its device |
| AuthServer.AuthTables.RecoveryRedeem | server/internal/auth/handlers.go:571-583 | Revokes and creates, all or nothing, keeping the invariant |
| RateLimit.Limiter.AllowRequest | server/internal/ratelimit/ratelimit.go:42-69 | The bucket updates in place compute the answer and the next state that the results below are about |
| RateLimit.Limiter.SweepIdle | server/internal/ratelimit/ratelimit.go:71-84 | Drops exactly the buckets idle longer than the expiry |
| RateLimitRuns.SweepUnobservableIff | server/internal/ratelimit/ratelimit.go:45-84 | Sweeps change no answer of any trace if and only if a swept bucket must be full again |
| RateLimitRuns.LimitersStayAlike | server/internal/ratelimit/ratelimit.go:71-84 | The sweeping limiter simulates the one that never forgets |
| RateLimitRuns.TellTaleDiffers | server/internal/ratelimit/ratelimit.go:71-84 | With a shorter expiry one trace, given outright, is answered differently |
| RateLimitBounds.WindowBound | server/internal/ratelimit/ratelimit.go:45-69 | In any window a key is granted at most burst + rate * length, with other keys and sweeps interleaved |
| RateLimitBounds.WindowBoundIff | server/internal/ratelimit/ratelimit.go:71-84 | That bound holds for every trace, key and window if and only if a swept bucket must be full again |
| RateLimitBounds.GrantsAndTokens | server/internal/ratelimit/ratelimit.go:57-64 | Grants plus tokens at hand never exceed one burst plus the refill since the window opened |
| RateLimitBounds.RetryAfterSuffices | server/internal/ratelimit/middleware.go:16 | For any rate and expiry, a refused key that is granted nothing meanwhile is let through once the header's whole seconds have passed, despite both truncations and any sweeps |
| RateLimitBounds.RetryAfterIsLeast | server/internal/ratelimit/ratelimit.go:42-44 | The wait is the least one: until it is over the key has no token, and the header overstates the true wait by at most a second |
| RateLimitBounds.BurstIsExact | server/internal/ratelimit/ratelimit.go:29-32 | A key never seen before gets exactly one burst through at once |
| RateLimitBounds.RefusedTokensGrow | server/internal/ratelimit/ratelimit.go:57-68 | Refused attempts cost nothing: a key has at least the tokens it would have had if nobody had asked |
| RecoveryPhrase.AcceptsExactlyEncodings | mobile/lib/core/crypto/recovery_phrase.dart:36-68 | Words validate if and only if they write out, each letter small or capital and with any space around each word, the encoding of some 16-byte entropy, and then of exactly one |
| RecoveryPhrase.NormalizeIff | mobile/lib/core/crypto/recovery_phrase.dart:50 | What is read as a listed word is the word in either case with any space around it |
| PhraseNumber.PhraseIffNumber | mobile/lib/core/crypto/recovery_phrase.dart:25-34 | The phrase is the twelve words whose places, as digits of base 2048, make the entropy's number followed by the upper four bits of the first byte of its hash |
| RecoveryPhrase.GeneratedIsAccepted | mobile/lib/core/crypto/recovery_phrase.dart:25-34 | Every generated phrase validates |
| RecoveryPhrase.PhraseIsInjective | mobile/lib/core/crypto/recovery_phrase.dart:25-34 | Different entropy gives a different phrase |
| RecoveryPhrase.KdfInputDeterminesEntropy | mobile/lib/core/crypto/recovery_phrase.dart:70-76 | However its words are written, a phrase feeds the key derivation the generated words joined by single spaces; two feed it the same if and only if they encode the same entropy |
| RecoveryPhrase.Validate | mobile/lib/core/crypto/recovery_phrase.dart:41-68 | The loops compute that decision, and the wrong word list is an error |
| RecoveryPhrase.Generate | mobile/lib/core/crypto/recovery_phrase.dart:25-34 | The loops compute the phrase of the entropy |
| RecoveryPhrase.BitsToIndices | mobile/lib/core/crypto/recovery_phrase.dart:111-121 | The values of the consecutive 11-bit groups |
| RecoveryPhrase.BitsToBytes | mobile/lib/core/crypto/recovery_phrase.dart:123-133 | The values of the consecutive whole 8-bit groups, whatever is left over |
| Bits.PackInvertsUnpack | mobile/lib/core/crypto/recovery_phrase.dart:99-133 | Packing undoes unpacking for values that fit |
| Bits.UnpackInvertsPack | mobile/lib/core/crypto/recovery_phrase.dart:99-133 | Unpacking undoes packing for whole groups |
| InviteCode.ReadAsIff | mobile/lib/core/crypto/invite_code.dart:42-72 | A text normalizes to a code if and only if the code is canonical and the text spells it in either case, with O for 0, I or L for 1 and separators anywhere |
| InviteCode.NormalizeInvertsFormat | mobile/lib/core/crypto/invite_code.dart:27-60 | Normalizing a formatted canonical code gives the code back |
| InviteCode.NormalizeSettles | mobile/lib/core/crypto/invite_code.dart:42-60 | What normalizing returns it returns again, formatted or not |
| InviteCode.FormatIsHyphenated | mobile/lib/core/crypto/invite_code.dart:27-40 | The display form is 32 characters, every fifth a hyphen, the others the code in order |
| InviteCode.AlphabetIff | mobile/lib/core/crypto/invite_code.dart:3-6 | The alphabet is the digits and the capital letters but I, L, O and U |
| InviteCode.Format | mobile/lib/core/crypto/invite_code.dart:30-40 | The loop over groups makes that form, and leaves text of another length alone |
| InviteCode.Normalize | mobile/lib/core/crypto/invite_code.dart:47-60 | The checking loop computes the normalized code or none |
| Fingerprint.ReadAsIff | mobile/lib/core/net/certificate_fingerprint.dart:24-39 | An input parses to a digest if and only if it spells the digest's hex form in either case with separators anywhere |
| Fingerprint.ParseInvertsPrinters | server/internal/selfsigned/selfsigned.go:64-74 | Parsing undoes the server's printer and the client's, for every 32-byte digest |
| Fingerprint.ParseInvertsLowerHex | mobile/lib/core/net/certificate_fingerprint.dart:24-28 | It undoes the plain lowercase form too, so different digests have different hex names |
| Fingerprint.LowerHexIsInjective | server/internal/blobs/handlers.go:67-68 | Blobs with different digests have different ids |
| Fingerprint.PrintersAgree | mobile/lib/core/net/certificate_fingerprint.dart:49-57 | The client prints every byte sequence as the server does |
| Fingerprint.PrintedLayout | server/internal/selfsigned/selfsigned.go:64-66 | The printed form is two capital hex digits for each byte with a colon between one and the next |
| Fingerprint.ServerFingerprint | server/internal/selfsigned/selfsigned.go:67-74 | The loop over the digest fills the parts that are joined |
| Fingerprint.TryParse | mobile/lib/core/net/certificate_fingerprint.dart:29-39 | The loop fills the 32 bytes, or there is no result |
| Fingerprint.ConstantTimeBytesEqual | mobile/lib/core/net/certificate_fingerprint.dart:67-78 | The accumulated difference is zero exactly when the sequences are equal |

## Left out

- HTTP, JSON, base64, routing, logging, TLS and configuration. Requests are modelled after decoding; an optional base64 field is absent, malformed or bytes.
- SQL and SQLite: tables are maps, `WithImmediateTx` (`server/internal/storage/storage.go:74-98`) makes a transaction one step, and a single query sees one state. Failures of the database itself are left out.
- More than one vault: `Bootstrap` is the only place that makes one and refuses once a user exists, so rows carry no vault id, and the grouping by vault of the orphan pass has one group.
- SHA-256, password hashing, token signing: a hash function is a parameter, the verdict on a password or recovery verifier is a parameter or presupposed, and a new refresh token hash is one never issued before.
- The width of integers: revisions, times and sizes do not wrap around.
- Row fields that no modelled decision reads, such as names, platforms, key envelopes and last-seen times, and the endpoints that only write or read those (change of password, prelogin, lists).
- RateLimit.Limiter.AllowRequest: tokens are reals, so floating point rounding is not modelled; buckets are values in the map, not shared objects; the rate is at least one per minute, as `server/cmd/wallet/main.go:79-80` has it.
- SyncHandlers.GetChanges: describes a page whose two reads see the same tables; `Paging` covers what falls between them.
- BlobHandlers.Get: describes a download with nothing between its two reads; `BlobReaders` covers what falls between them.
- BlobStore.PathsDiffer: path cleaning by the standard library and the directory of a vault are not modelled, and neither are errors of the file system other than a missing file.
- BlobFiles.RowsAlwaysHaveFilesIff: the delete of a row abstracts from age, flag and liveness, so it covers more runs than the collector has; in `BlobSystem` it abstracts from age only.
- Convergence.GreatestEditSurvives: presupposes that no cleanup along the way removes the item in question; a cleaned-up item starts over with base revision 0.
- InviteCode.ReadAsIff: Unicode case mapping and white space outside ASCII are not modelled; such characters are refused here.
- Fingerprint.ReadAsIff: white space outside ASCII is not modelled; such characters are refused here.
- RecoveryPhrase.AcceptsExactlyEncodings: Unicode case mapping and white space outside ASCII are not modelled; the random source is the entropy parameter.
- The client's sync engine, which is not part of this model: a puller is any client that saves each page's rows and cursor.
- Barcode validation, canonical JSON, additional authenticated data, key expansion, migrations, backups, certificate issuing and user interface are not modelled.
