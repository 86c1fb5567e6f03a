# Verified model of the Fikua Lab credential issuer

The issuer hands out PID credentials over OpenID for Verifiable Credential
Issuance, as SD-JWT VC and as ISO mdoc, and publishes a Token Status List with
which it can revoke them. This project models the stateful and the
format-building parts of it in Dafny and proves what they promise.

## How it is laid out

| part of the issuer | files |
|---|---|
| status list: bit array, allocator, records | `StatusBits`, `StoreSpec`, `MemoryStore` |
| concurrent trigger, issue, revoke and list calls | `IssuerProtocol` (the transition system and its invariant), `IssuerSafety` (what holds over every run), `IssuerEntries` (status entries and marks against the calls made), `IssuerCache` (the cached list against the store), `IssuerRuns` (runs that show what can go wrong) |
| the allocator as Postgres transactions | `PostgresAlloc` (interleaved transactions, refinement), `PostgresStore` (the calls, statement by statement) |
| the service as one caller runs it | `IssuanceService`, `Paging` |
| nonces, DPoP proofs, access tokens | `SessionStore`, `DPoP`, `AccessToken` |
| SD-JWT and its verifier | `Base64Url`, `SdJwt`, `SdJwtIssuance` |
| mdoc and its verifier | `BigEndian`, `Cbor`, `Mdoc`, `MdocIssuance`, `EcdsaDer` |
| the PID credentials, the status index in them, and their text | `PidCredential`, `CredentialText` |
| small shared types | `Common` |

**State machines.** In `IssuerProtocol` a step is one lock region of the code:
one operation of the store, a cache hit, the cache clear of a revocation, or a
part of a rebuild made under the cache lock. Any number of calls interleave. JSON
and signing errors may strike wherever the code can meet them, and so may the
store errors that the code gets to see, including an allocation or a new status
that is committed although its caller is told of an error. So may the failures
that the Postgres store swallows: a record that is not inserted, an issuer_state
or a status that is not written while the call goes on as if it were. In
`PostgresAlloc` a step is one SQL statement under READ COMMITTED, any transaction
may abort at any step, and the unique index and the row lock are modelled as
tables and a lock. Properties of runs are lemmas over every run of these systems,
proved by an invariant.

**Classes.** What the code updates in place is a class with the code's own fields
and loops. Each method is proved against a function or a predicate of the old
state, and the transition systems are built from the same store functions, so the
two views cannot drift apart. `IssueCredential` builds the credential's text with
the two builders, so what it hands out is what the verifiers are given.

**Verifiers.** The credential builders are judged by a verifier written from the
standards: sections 4.1 and 6.2 of draft-ietf-oauth-status-list-21, sections 4.2.1,
4.2.3 and 7.1 of RFC 9901, sections 7.2.1 and 9.1.2.5 of ISO/IEC 18013-5, sections
3.1 and 4.4 of RFC 9052, sections 2.1 and 7.1 of RFC 9053, section 2 of RFC 9360,
section 3 of RFC 8949, section 5 of RFC 4648. It has readers of its own for every
part of a credential, so that what they find speaks for what the builders put in:
status, salts and random octets, digests, dates, keys, certificates, and the octets
that are signed. Encodings are held to examples of their standards.

**Parameters.** Clock readings, random tokens, salts, the order in which a Go map
yields its keys, answers of the authorization server, signatures and the verdicts
of the JOSE, JSON and URL libraries are parameters of the methods or choices of
a step. SHA-256 is a function parameter; where the argument needs it, the absence
of collisions is a hypothesis, stated for the values at hand.

**Assumptions on callers.** Record ids and issuer_states are fresh when drawn. An
access token names a record whose `TriggerIssuance` has returned.

## What came out

* Once a revocation has returned, no list handed out later shows its credential
  as valid, although the store is changed outside the cache lock
  (`IssuerSafety.RevocationIsVisible`). That goes for every credential of the
  record, handed out before or after, and for what a verifier reads from its text
  (`IssuerSafety.RevokedCredentialIsListed`,
  `IssuanceService.RevokedSdJwtReadsRevoked`, `IssuanceService.RevokedMdocReadsRevoked`).
* The cached list equals the store at an index exactly when the index did not turn
  INVALID since the list's entries were read (`IssuerCache.CacheIsBehindWhenMissed`).
  With no revocation of it in progress, that fails exactly when a status change
  took effect but was reported to its caller as failed, and the cache was not
  refreshed since: the code then returns without clearing it
  (`IssuerCache.CacheRefinesStore`; `IssuerRuns.CacheMayBeBehind` is a run).
* The comment at `internal/issuance/service.go:28-33` bounds the staleness by the
  cache's 60 seconds and by the time since the last revocation. A list lives 60
  seconds from when it was stored, not from when its entries were read. If a
  rebuild takes at most L, an index that is INVALID at time p reads INVALID in
  every list handed out from p + 60s + L on, whatever became of the call that
  revoked it, and one tick earlier it may not
  (`IssuerCache.InvalidIsListedInTime`, `IssuerRuns.ListingBoundIsTight`).
* A status entry does not mean that a credential was issued. The comment at
  `db/schema.sql:37-39` says that an index is assigned only at actual issuance
  and never to an offered record; the code allocates before it builds, and
  `IssuerRuns.OfferedRecordMayHaveEntry` is a run that shows it. An entry means
  an issued record exactly when an allocation for it means that some issue call
  has marked it, to effect (`IssuerEntries.EntryMeansIssued`). While none is under
  way, an unissued record has an entry exactly when some issue call reached the
  allocator and each that did was told of a store error there, failed in the
  build, or handed its credential out while the write of its mark failed
  (`IssuerEntries.UnissuedEntryMeansNoneMarked`). A pending record has one exactly
  when its mark as offered was lost as well
  (`IssuerEntries.PendingEntryMeansLostOffer`).
* A credential that was handed out cannot always be revoked: `RevokeCredential`
  goes by the record's status, and the failure to write that is swallowed
  (`internal/issuance/service.go:265`). It can be revoked exactly when some issue
  call's mark for its record took effect (`IssuerEntries.RevocableWhenMarked`;
  `IssuerRuns.HandedOutMayBeUnmarked` is a run without one).
* The issuer_state index agrees with the Postgres query as long as a record gets
  one issuer_state only; a second would leave the first in the index
  (`StoreSpec.FirstStateOnly`).
* A claim in the credential data whose name the payload already uses, such as
  `status` or `sub`, makes every presentation that discloses it unacceptable to a
  conforming SD-JWT verifier (`SdJwtIssuance.SharedNameIsRejected`, with the exact
  condition in `SdJwtIssuance.PresentationVerifies` and
  `PidCredential.PidPresentationVerifies`).
* In an mdoc the same claim is accepted beside the issuer's own element of that
  name. A verifier who goes by names reads the status index, whatever is
  presented, exactly when the record has no claim called `status`
  (`PidCredential.MdocStatusIsUnambiguous`; per presentation, and for the issuing
  authority and country too, `PidCredential.MdocStatusIsRecovered`).
* What goes into a credential is what a verifier takes out: the record's own status
  index and the list's address, dates, subject and keys, and in every disclosure
  and item the random octets drawn for it (`CredentialText.SdJwtTextIsRead`,
  `CredentialText.SdJwtTextIsSalted`, `CredentialText.MdocTextIsRead`). Where
  signatures check only on what was signed, nothing else passes
  (`SdJwt.OnlySignedPayloadsVerify`, `MdocIssuance.OnlyIssuedDocumentsVerify`).
* A negative INTEGER in the signer's DER answer is not refused: `FillBytes` takes
  the absolute value, so two different answers give the same COSE signature
  (`EcdsaDer.NegativeCollides`), exactly when their numbers agree up to sign
  (`EcdsaDer.SameRawMeansSameMagnitudes`). The output stands for the signer's
  numbers exactly when neither is negative (`EcdsaDer.RawStandsFor`), and an mdoc
  signed with it verifies exactly when ECDSA accepts the absolute values
  (`MdocIssuance.SignedPresentationVerifies`).
* A token published as revoked from instant p on is refused by any check from
  p + 2s + L on, L being the longest fetch, and one tick earlier it may not be
  (`AccessToken.RevokedTokenIsRefused`, `AccessToken.RefusalBoundIsTight`).
* Paging is sure to list every record once exactly when no two records share a
  sort key (`Paging.PagingWorksWhenKeysDiffer`): with distinct keys enough pages
  hold them all in order (`Paging.PagesCoverAllRecords`), with a tie there are
  pages that show one record twice and another never
  (`Paging.TiesRepeatARecord`).

## Model

| member | source | states |
|---|---|---|
| StatusBits.PackBitstring | internal/statuslist/bitstring.go:18-33 | for every entry map, size and iteration order the loop fills exactly the array that the standard's layout prescribes |
| StatusBits.DraftExample | internal/statuslist/bitstring.go:28-30 | the three bytes of the example in section 4.1 of the draft |
| StatusBits.PackedIsUnique | internal/statuslist/bitstring.go:12-17 | an array is that one exactly when it has ceil(size/4) bytes and every slot reads as its entry or VALID, padding as zero; so two iteration orders give equal bytes |
| StatusBits.UnpackPacked | internal/statuslist/bitstring.go:12-33 | a relying party reading any index gets the entry's low two bits inside the list and VALID in the padding and beyond |
| StatusBits.AddEntry | internal/statuslist/bitstring.go:28-30 | OR-ing a new entry in changes its own byte in its own two bits and leaves the entries sharing that byte alone |
| StatusBits.SkipEntry | internal/statuslist/bitstring.go:25-27 | an index outside the list changes no byte |
| StatusBits.ListSize | internal/issuance/service.go:325-330 | the size loop yields the smallest size that covers every index, in any iteration order |
| StatusBits.ListShowsEntries | internal/issuance/service.go:325-333 | with that size no live entry is skipped: each is inside the array and reads back, every other index reads VALID |
| StoreSpec.AllocateKeepsValid | internal/issuance/store.go:187-198 | allocating keeps indices dense from 0 and owned by one record each |
| StoreSpec.SetStatusKeepsValid | internal/issuance/store.go:201-210 | changing a status keeps indices dense and owned by one record each |
| StoreSpec.AllocationIsPermanent | internal/issuance/store.go:190-197 | whatever other records are served in between, asking again for a record returns its first index and changes nothing |
| StoreSpec.EntriesFollowHistory | internal/issuance/store.go:187-221 | looking up a record's entry after an allocation or a status change: a first allocation shows VALID at a new index, a new status shows for its own record only, and nothing else changes |
| StoreSpec.IndexAgreesWithScan | internal/issuance/store.go:85-94 | under a valid index the lookup finds the only record with that issuer_state, or there is none |
| StoreSpec.FirstStateOnly | internal/issuance/store.go:103-114 | setting an issuer_state keeps the index valid exactly when it is nonempty, the record's first (or the same again) and no other record's |
| MemoryStore.Store.constructor | internal/issuance/store.go:43-50 | a new store is empty and valid |
| MemoryStore.Store.Create | internal/issuance/store.go:53-72 | adds one pending record, empty data becoming {}, and touches nothing else |
| MemoryStore.Store.FindById | internal/issuance/store.go:75-80 | the record filed under the id, or none |
| MemoryStore.Store.FindByState | internal/issuance/store.go:85-94 | the record the index names; under a valid index the only one with that issuer_state |
| MemoryStore.Store.SetRecordStatus | internal/issuance/store.go:97-99 | changes one known record's status and update time; an unknown id changes nothing |
| MemoryStore.Store.SetIssuerState | internal/issuance/store.go:103-114 | links one known record and indexes it; an unknown id changes nothing |
| MemoryStore.Store.FindAll | internal/issuance/store.go:127-159 | a page of a listing that has every record once, sorted by the allowed field and order when keys are distinct, and the total |
| MemoryStore.Store.AllocateIdx | internal/issuance/store.go:187-198 | get-or-create, and the allocator stays dense and injective |
| MemoryStore.Store.SetEntryStatus | internal/issuance/store.go:201-210 | changes the status at the record's own index, or reports that it has none |
| MemoryStore.Store.FindByRecordId | internal/issuance/store.go:213-221 | the record's index and status, or none |
| MemoryStore.Store.AllEntries | internal/issuance/store.go:224-232 | a copy equal to the entries, in any iteration order |
| IssuerProtocol.StepKeepsInv | internal/issuance/service.go:116-371 | every lock region of every call keeps the whole invariant: stores, calls in progress, cache lock, cached list and snapshot |
| IssuerProtocol.RunKeepsInv | internal/issuance/service.go:116-371 | the invariant holds at every point of every interleaving |
| IssuerProtocol.StepGrows | internal/issuance/service.go:116-371 | no step takes back an index, an INVALID status, a stage of a record's life or an issuer_state |
| IssuerProtocol.OtherCallsKeep | internal/issuance/service.go:116-371 | nothing that a call in progress relies on is taken away by another call's step |
| IssuerProtocol.LockStep | internal/issuance/service.go:315-341 | the cache lock is held by exactly the call that is rebuilding |
| IssuerProtocol.AgreesStep | internal/issuance/service.go:363-369 | what a list shows at an index can fall behind the store only by showing VALID where the store has turned INVALID, after any step |
| IssuerProtocol.NoSnapshotAfterClear | internal/issuance/service.go:367-369 | the cache clear finds no rebuild holding an older snapshot |
| IssuerProtocol.CacheStep | internal/issuance/service.go:315-341 | cached list and snapshot are never off in any other way, after every step |
| IssuerSafety.RevocationIsVisible | internal/issuance/service.go:310-371 | once RevokeCredential has returned success, every list handed out later reads INVALID at the record's index, in every interleaving |
| IssuerSafety.RevokedCredentialIsListed | internal/issuance/service.go:310-371 | the same at the index of every credential issued for the record, at any point of the run, before or after the revocation |
| IssuerSafety.RevocationIsPermanent | internal/issuance/service.go:363-363 | an index that is INVALID is INVALID at every later point of the run |
| IssuerSafety.CredentialsShareIdxPerRecord | internal/issuance/service.go:249-260 | any two credentials of a run, in either format, carry the same index exactly when they are for the same record |
| IssuerCache.TurnStep | internal/issuance/service.go:363-365 | an index turns INVALID in exactly two kinds of step: a status change, reported as done or as failed |
| IssuerCache.TokenIsDated | internal/issuance/service.go:315-340 | in every run the cached list says at every index what the store said when its entries were read, by a rebuild that nothing cleared or replaced since, and expires 60 seconds after it was stored |
| IssuerCache.CacheIsBehindWhenMissed | internal/issuance/service.go:315-340 | the cached list equals the store at an allocated index exactly when the index did not turn INVALID with the cache neither cleared since nor replaced by a list whose entries were read since, however many indices came after the list was built |
| IssuerCache.MissedIsPendingOrLost | internal/issuance/service.go:363-369 | such a turn is a revocation still on its way to the cache clear, or one whose store call was reported as failed |
| IssuerCache.CacheRefinesStore | internal/issuance/service.go:315-371 | with no revocation of the index pending, the cached list equals the store there exactly when no status change that took effect was reported as failed without a refresh since |
| IssuerCache.ServedListIsDated | internal/issuance/service.go:28-34 | with rebuilds of at most L, every list handed out says what the store said when its entries were read, less than 60s + L ago |
| IssuerCache.InvalidIsListedInTime | internal/issuance/service.go:28-34 | an index that is INVALID at time p reads INVALID in every list handed out from p + 60s + L on, whatever became of the call that revoked it |
| IssuerRuns.ListingBoundIsTight | internal/issuance/service.go:310-341 | a run that hands out a list reading VALID there one tick before that bound |
| IssuerRuns.CacheMayBeBehind | internal/issuance/service.go:363-369 | a run that ends, all calls over, with a fresh cached list that reads VALID at an index the store has INVALID |
| IssuerSafety.IssuedIsOwned | internal/issuance/service.go:249-257 | from its issuance on a credential's index belongs to its record and has a status |
| IssuerEntries.IssuedHasData | internal/issuance/service.go:244-257 | in every run a credential, and any index on the way to one, is for a record that has credential data |
| IssuerEntries.IssuedAsAsked | internal/issuance/service.go:197-263 | and it is for the record and in the format that its call was made for |
| IssuerSafety.IssuedCredentialIsListed | internal/issuance/service.go:249-333 | end to end: a list whose entries are read after an issuance covers the credential's index and shows the store's status there |
| IssuerEntries.StatusMovesForward | internal/issuance/service.go:130-141 | a record's status moves one stage at a time, pending, offer_created, credential_issued, and never back; a stage is skipped exactly when a record still pending is marked issued, and then its mark as offered was lost |
| IssuerSafety.RevokeOfIssuedSucceeds | internal/issuance/service.go:349-371 | a revocation of an issued record that meets no store error is never refused, whatever runs beside it, and leaves INVALID |
| IssuerSafety.RevokeIsIdempotent | internal/issuance/service.go:343-345 | after one revocation of a record has returned, no step of another is refused or changes a record or an entry; it only drops the list cached since, in every interleaving |
| IssuerEntries.EntryMeansAllocated | internal/issuance/service.go:249-252 | a record has a status entry exactly when some issue call reached the allocator for it |
| IssuerEntries.PendingMeansLostOffer | internal/issuance/service.go:141-141 | a record whose trigger has returned is still pending exactly when its mark as offered was lost and no issue call has marked it since |
| IssuerEntries.PendingEntryMeansLostOffer | db/schema.sql:37-39 | a pending record has a status entry exactly when its mark as offered was lost, an issue call for it reached the allocator, and none has marked it |
| IssuerEntries.IssuedMeansMarked | internal/issuance/service.go:265-268 | a record has the status issued exactly when some issue call for it ended with a mark that took effect |
| IssuerEntries.EntryMeansIssued | db/schema.sql:37-39 | an entry means an issued record exactly when an allocation means that some issue call's mark took effect |
| IssuerEntries.FateOfAllocation | internal/issuance/service.go:249-268 | past the allocator an issue call is under way, was told of a store error there, failed in the build, ended with its mark lost, or some call for the record has marked it |
| IssuerEntries.UnissuedEntryMeansNoneMarked | db/schema.sql:37-39 | with no issue call for it under way, a record has an entry without being issued exactly when some call reached the allocator and every one that did was told of a store error there, failed in the build, or ended with its mark lost |
| IssuerEntries.RevocableWhenMarked | internal/issuance/service.go:349-371 | a revocation of a credential's record that meets no store error succeeds if some issue call's mark for the record took effect before it checks, and is refused if none did |
| IssuerRuns.TriggerRuns | internal/issuance/service.go:116-145 | from any point of a run an idle caller can complete a trigger, with its mark as offered written or lost; it adds one linked record and nothing else |
| IssuerRuns.FailedBuildRuns | internal/issuance/service.go:249-263 | from any point of a run an issue call can fail in the build, leaving the allocation and nothing else |
| IssuerRuns.IssueRuns | internal/issuance/service.go:249-268 | from any point of a run an issue call can hand its credential out, with its mark as issued written or lost |
| IssuerRuns.OfferedRecordMayHaveEntry | db/schema.sql:37-41 | a run that ends, all calls over, with a status entry for a record that is only offered, and one for a record that is still pending: the comment's claim is false of the code |
| IssuerRuns.HandedOutMayBeUnmarked | internal/issuance/postgres_store.go:73-76 | a run that ends, all calls over, with a credential handed out whose record is not marked as issued |
| IssuerSafety.LookupIsScan | internal/issuance/store.go:85-94 | at every point of every run the issuer_state lookup answers as the Postgres query's scan would |
| IssuerSafety.TriggeredStaysReachable | internal/issuance/service.go:132-141 | a record whose trigger has returned with its issuer_state written is found by that issuer_state ever after |
| PostgresAlloc.StepKeepsInv | internal/issuance/postgres_store.go:143-184 | every statement of every transaction keeps committed indices dense, one per record, and one holder of the sequence row |
| PostgresAlloc.CommitRefines | internal/issuance/postgres_store.go:152-170 | a commit does to the committed tables what the in-memory get-or-create does, and returns its index |
| PostgresAlloc.SetStatusRefines | internal/issuance/postgres_store.go:174-184 | the UPDATE does what the in-memory SetStatus does and returns the same index, or none |
| PostgresAlloc.StepRefines | internal/issuance/postgres_store.go:143-184 | every step is an in-memory operation or invisible, and the one that returns an index is AllocateIdx returning it |
| PostgresAlloc.RunLinearises | internal/issuance/postgres_store.go:138-171 | any interleaving leaves the tables that the committed calls, run one after another, leave in memory |
| PostgresAlloc.CommittedIndicesAreDense | db/schema.sql:42-65 | committed indices are exactly 0 to next_idx - 1, no gap after an abort, each owned by one record |
| PostgresAlloc.RowsAreKept | internal/issuance/postgres_store.go:143-184 | a committed row keeps its index and record for the rest of the run |
| PostgresAlloc.SuccessesAgree | db/schema.sql:50-55 | two successful calls of a run return the same index exactly when they are for the same record |
| PostgresAlloc.InsertIsDecided | internal/issuance/postgres_store.go:160-169 | the row lock leaves one insert in flight; it is refused exactly when its record has a committed row |
| PostgresAlloc.KnownSince | internal/issuance/postgres_store.go:152-170 | a record without a row at one point of a run has one later exactly when a call committed it in between |
| PostgresAlloc.InsertIsRefusedWhenOvertaken | db/schema.sql:50-55 | over a run: the INSERT is refused exactly when another call for the record committed its row between this call's SELECT and its UPDATE |
| PostgresStore.PgStore.AllocateIdx | internal/issuance/postgres_store.go:143-171 | success is the in-memory answer and effect; failure at any statement has no effect, a lost commit acknowledgement aside; the row lock is released |
| PostgresStore.PgStore.SetStatus | internal/issuance/postgres_store.go:174-184 | the in-memory answer and effect; a failure has no effect, or only its answer is lost |
| PostgresStore.PgStore.AllEntries | internal/issuance/postgres_store.go:199-216 | all rows as a map in any row order, or an error if a row cannot be read |
| SessionStore.SessionStore.RegisterNonce | internal/session/store.go:48-52 | adds the nonce and nothing else |
| SessionStore.SessionStore.ValidateNonce | internal/session/store.go:56-64 | yes exactly for a registered nonce, which is consumed |
| SessionStore.SessionStore.InvalidateNonce | internal/session/store.go:70-74 | removes the nonce, if present |
| SessionStore.SessionStore.StoreCredentialOffer | internal/session/store.go:78-84 | files the offer under the drawn id |
| SessionStore.SessionStore.GetCredentialOffer | internal/session/store.go:89-94 | the filed offer, left in place |
| SessionStore.NoncesAreConserved | internal/session/store.go:46-74 | in every interleaving acceptances of a nonce, withdrawals of it, and one if it is still there, add up to the registrations that found it missing |
| SessionStore.AcceptedMeansUntakenSince | internal/session/store.go:48-74 | a nonce is accepted exactly when it was registered before and neither offered nor withdrawn since |
| SessionStore.AcceptedTwiceMeansRegisteredBetween | internal/session/store.go:54-64 | between two acceptances of a nonce lies a registration of it |
| DPoP.JtiStore.Accept | internal/oauth2/dpop.go:53-71 | refuses a jti it holds, registers a new one, and evicts exactly 1,000 entries, any ones, when it finds 10,000 |
| DPoP.SizeIsConserved | internal/oauth2/dpop.go:41-71 | size plus 1,000 per eviction equals the number of accepts; never above 10,000, never below 9,001 after an eviction |
| DPoP.EvictionsFromAccepts | internal/oauth2/dpop.go:59-68 | after n accepts there have been max(0, (n - 9001) / 1000) evictions, whatever was offered |
| DPoP.KeptUnlessEvicted | internal/oauth2/dpop.go:53-71 | a registered jti leaves the set only as a victim |
| DPoP.ReplayNeedsEviction | internal/oauth2/dpop.go:51-71 | a jti accepted twice was evicted in between, after more than 10,000 accepts, for every choice of victims |
| DPoP.ReplayMeansEviction | internal/oauth2/dpop.go:51-71 | a jti that was accepted, and not since, is accepted again exactly when it was evicted in between |
| DPoP.EqualFoldAscii | internal/oauth2/dpop.go:205-222 | true exactly for octet strings equal up to the case of ASCII letters |
| DPoP.FoldedAlike | internal/oauth2/dpop.go:205-222 | two octets fold alike exactly when they are equal or the two cases of one letter |
| DPoP.Fault | internal/oauth2/dpop.go:98-153 | each refusal exactly when the checks before it pass and its own fails; none exactly when the proof is well-formed: one ES256 signature that verifies under a public jwk, type, method, URL and age as required |
| DPoP.ValidateProof | internal/oauth2/dpop.go:98-170 | accepts exactly well-formed proofs with a new jti and the expected ath, answers with their own key, and reports the first fault of others; spends a jti for every well-formed proof with a new one, a wrong ath included, and for no other |
| AccessToken.Verifier.GetKeySet | internal/accesstoken/verifier.go:188-204 | one lock region: fresh keys, else a fetch, else stale keys, else an error |
| AccessToken.Verifier.IsRevoked | internal/accesstoken/verifier.go:234-246 | one lock region: a refetch once expired, whose failure fails the call and changes nothing |
| AccessToken.VerifyStep | internal/accesstoken/verifier.go:106-158 | a token passes exactly when it is authentic, not revoked and bound to a key; the answer is its own record id, c_nonce, key thumbprint and jti, under the keys then held |
| AccessToken.Verifier.Verify | internal/accesstoken/verifier.go:106-181 | accepts exactly tokens of one signature and the right type that parse under the keys, carry a jti cleared by the denylist check and are bound to a key; the answer is what the token says; each refusal exactly when its own check is the first to fail; and the caches afterwards |
| AccessToken.VerifyIsRegions | internal/accesstoken/verifier.go:106-139 | Verify is the key set's lock region and, for an authentic token, the denylist's for its own jti, one after the other |
| AccessToken.DenylistIsDated | internal/accesstoken/verifier.go:237-243 | in every run the cached denylist is one that was published at most 2s + L before it expires |
| AccessToken.RevokedTokenIsRefused | internal/accesstoken/verifier.go:227-246 | a jti published as revoked throughout [p, q] is never cleared by a check within [p + 2s + L, q] |
| AccessToken.RevokedTokenDoesNotPass | internal/accesstoken/verifier.go:106-139 | so an authentic token with such a jti is refused by Verify |
| AccessToken.UnrevokedTokenIsCleared | internal/accesstoken/verifier.go:227-246 | a jti not published as revoked from 2s + L before a check to its end is cleared, if the list it needs can be had |
| AccessToken.RefusalBoundIsTight | internal/accesstoken/verifier.go:85-85 | one tick before that bound a check can still clear it |
| AccessToken.KeysAreTheLastFetched | internal/accesstoken/verifier.go:188-204 | the cache holds the most recent successful fetch, dated by its completion, and nothing before the first |
| AccessToken.KeySetIsAvailable | internal/accesstoken/verifier.go:183-204 | keySet fails only while no fetch has ever succeeded; else it returns the last one, younger than 60s unless this call's refetch failed |
| EcdsaDer.FillBytes | internal/mdoc/cose.go:97-99 | the buffer's part reads x in big-endian, and nothing outside it changes |
| EcdsaDer.FillHalves | internal/mdoc/cose.go:97-99 | 64 octets whose halves read r and s |
| EcdsaDer.RawStandsFor | internal/mdoc/cose.go:97-100 | the octets made of a DER answer read the absolute values of r and s, and r and s themselves exactly when neither is negative |
| EcdsaDer.SameRawMeansSameMagnitudes | internal/mdoc/cose.go:97-111 | two DER answers give equal octets exactly when their numbers agree up to sign |
| EcdsaDer.SignRawP1363 | internal/mdoc/cose.go:87-111 | the loop makes these octets; an error exactly for a failing signer, exactly for bad DER, and a panic for numbers of more than 32 octets |
| EcdsaDer.RawSignatureIsFaithful | internal/mdoc/cose.go:97-100 | outputs are equal exactly when the pairs are |
| EcdsaDer.NegativeCollides | internal/mdoc/cose.go:103-111 | two different DER answers, of (-1, 1) and (1, 1), and equal outputs |
| EcdsaDer.ParseEncodedSignature | internal/mdoc/cose.go:105-111 | parsing the DER encoding of any r, s below 2^256 gives r and s back, whatever octets follow |
| EcdsaDer.LengthIsCanonical | internal/mdoc/cose.go:105-111 | a length is parsed exactly from its one shortest encoding, short or long form, and none of 2^31 or more |
| EcdsaDer.IntegerIsCanonical | internal/mdoc/cose.go:105-111 | no two contents that the parser admits stand for one integer, negative ones included |
| EcdsaDer.Transcode | internal/mdoc/cose.go:81-101 | end to end: DER of (r, s) in, 64 octets reading r and s out |
| EcdsaDer.RawSignatureChecks | internal/mdoc/cose.go:81-101 | a verifier of the octets checks the absolute values of the numbers in the signer's DER answer |
| Cbor.DecodeEncode | internal/mdoc/item.go:65-65 | decoding inverts encoding for every value of the shapes used, and leaves what follows |
| Cbor.EncodeInjective | internal/mdoc/builder.go:88-92 | equal encodings mean equal values |
| Cbor.Examples | internal/mdoc/item.go:65-65 | integers of appendix A of RFC 8949 |
| Cbor.ListExamples | internal/mdoc/item.go:65-65 | an array and a map of appendix A of RFC 8949 |
| Cbor.DecodedFits | internal/mdoc/builder.go:107-114 | whatever decodes has no length of 2^64 or more |
| Cbor.RawArrayOf | internal/mdoc/builder.go:107-114 | an encoded array comes apart into the octets of each item as they stand |
| Cbor.RawMapOf | internal/mdoc/builder.go:107-114 | an encoded map comes apart into its keys and the octets of their values |
| Mdoc.BuildNamespaceItems | internal/mdoc/item.go:36-66 | digestIDs are exactly 0 to n - 1, each the one inside its item, items tag-24 encoded in order, each digest over the tagged octets; fails exactly when randomness runs out |
| Mdoc.AssembleIsEncode | internal/mdoc/builder.go:102-114 | embedding encoded parts as they are gives the encoding of the whole |
| MdocIssuance.DigestsAgree | internal/mdoc/builder.go:76-76 | the digest map, in whatever order it is encoded, lists each item's digest under its digestID |
| MdocIssuance.ListKeys | internal/mdoc/builder.go:76-76 | the encoder meets each digestID exactly once, in whatever order the map yields them |
| MdocIssuance.Builder.constructor | internal/mdoc/builder.go:30-32 | a new builder has no elements |
| MdocIssuance.Builder.AddElement | internal/mdoc/builder.go:53-56 | appends one element, a full-date for birth_date and a text otherwise |
| MdocIssuance.Builder.AddMapElement | internal/mdoc/builder.go:60-63 | appends one map-valued element |
| Mdoc.ToBeSignedComesApart | internal/mdoc/cose.go:56-68 | the octets signed decode to the context, the protected headers, no external data and the payload |
| Mdoc.ToBeSignedDetermines | internal/mdoc/cose.go:56-68 | two are equal exactly when headers and payload are: a signature covers one payload |
| Mdoc.ProtectedFits | internal/mdoc/cose.go:42-46 | the protected headers say ES256 |
| Mdoc.OnlySignedMsoVerifies | internal/mdoc/cose.go:42-79 | if signatures check only on octets signed over these payloads, the MSO of any accepted document is in one of them |
| MdocIssuance.Builder.Build | internal/mdoc/builder.go:67-115 | the result is the encoding of an IssuerSigned that carries what becomes of the signer's DER answer for its own MSO, for any order of the digest map; fails exactly for want of randomness, for a device key that is not EC, or when that answer fails, is bad DER or makes the transcoding panic |
| MdocIssuance.DigestOf | internal/mdoc/item.go:22-30 | the MSO lists each item's digest under the digestID inside that item |
| MdocIssuance.MsoFields | internal/mdoc/mso.go:13-54 | read field by field: version, digest algorithm, docType, every digest, the wallet's key as an EC2 key on P-256, and the three dates |
| MdocIssuance.SignatureCoversMso | internal/mdoc/cose.go:56-79 | what is signed decodes to this MSO, under a header that says ES256 |
| MdocIssuance.SignedMsoRecovered | internal/mdoc/cose.go:42-79 | a verifier reads exactly this MSO from the COSE_Sign1 if it accepts the signature over it, and none if not |
| MdocIssuance.CertificatesRecovered | internal/mdoc/cose.go:49-54 | the certificates of the chain are read back, be they none, one or several |
| MdocIssuance.ItemComesApart | internal/mdoc/item.go:54-66 | every issued item holds its digestID, the random octets drawn for it, and its element |
| MdocIssuance.EqualItems | internal/mdoc/item.go:54-66 | issued items are the same octets only with the same random octets |
| MdocIssuance.IssuedItemVerifies | internal/mdoc/item.go:54-66 | the octets of every issued item pass the digest check and yield its own element |
| MdocIssuance.IssuerSignedComesApart | internal/mdoc/builder.go:102-114 | a verifier gets back the issuer's part and the octets of every item presented |
| MdocIssuance.PresentationVerifies | internal/mdoc/builder.go:65-115 | any selection of the items, in any order, is accepted exactly when the signature over the MSO is, and yields exactly the selected elements |
| MdocIssuance.SignedPresentationVerifies | internal/mdoc/cose.go:42-101 | from the signer's DER answer to the verifier: any selection is accepted exactly when ECDSA accepts the absolute values of the two numbers in the answer |
| MdocIssuance.OnlyIssuedItemsVerify | internal/mdoc/item.go:22-30 | octets that pass and collide with no issued item are those of an issued item, and yield its element |
| MdocIssuance.OnlyIssuedDocumentsVerify | internal/mdoc/builder.go:65-115 | if signatures check only on what was signed, any document a verifier accepts yields elements of one signed mdoc only, unless an item collides |
| Base64Url.RoundTrip | internal/sdjwt/disclosure.go:40-40 | decoding inverts the unpadded base64url encoding |
| Base64Url.EncodeInjective | internal/sdjwt/disclosure.go:48-51 | equal encodings mean equal octets |
| Base64Url.Alphabet | internal/sdjwt/disclosure.go:40-40 | the table of section 5 of RFC 4648 |
| Base64Url.Examples | internal/sdjwt/disclosure.go:40-40 | three examples of section 10 of RFC 4648 |
| SdJwt.ReadDisclosureOf | internal/sdjwt/disclosure.go:29-43 | a verifier reads from a disclosure the claim name and value put in |
| SdJwt.DisclosureComesApart | internal/sdjwt/disclosure.go:29-43 | a disclosure is made of three parts: the octets of its salt, the claim name and the value |
| SdJwt.EqualDisclosures | internal/sdjwt/disclosure.go:29-43 | two are equal exactly when salt, name and value are |
| SdJwt.DigestReadsBack | internal/sdjwt/disclosure.go:45-51 | a digest decodes to the SHA-256 of the encoded disclosure |
| SdJwt.SplitSerialized | internal/sdjwt/builder.go:136-143 | splitting at the tildes gives back the JWT and the disclosures, in order |
| SdJwt.CompactVerifies | internal/sdjwt/builder.go:131-134 | a verifier of the signed JWT reads the payload that was signed |
| SdJwt.OnlySignedPayloadsVerify | internal/sdjwt/builder.go:131-134 | if signatures check only on what was signed, the payload a verifier accepts is one that was |
| SdJwtIssuance.Builder.constructor | internal/sdjwt/builder.go:40-42 | a new builder has no claims and a year's validity |
| SdJwtIssuance.Builder.PlainClaim | internal/sdjwt/builder.go:51-54 | appends one plain claim |
| SdJwtIssuance.Builder.SelectiveClaim | internal/sdjwt/builder.go:59-62 | appends one selective claim |
| SdJwtIssuance.Builder.MakeDisclosures | internal/sdjwt/builder.go:71-80 | one disclosure a claim, in the order added, made of the claim and the salt drawn for it, and its SHA-256 as digest; fails exactly when salts run out |
| SdJwtIssuance.Builder.AssembleClaims | internal/sdjwt/builder.go:82-107 | the payload: registered claims, digests if there are any, plain claims with later ones replacing earlier, the holder key last; an error exactly when the holder key has no public JWK |
| SdJwtIssuance.PayloadSays | internal/sdjwt/builder.go:82-107 | issuer, type, subject, dates and holder key read as the builder was told |
| SdJwtIssuance.LastClaimCounts | internal/sdjwt/builder.go:94-96 | a plain claim reads as the last one added under its name |
| SdJwtIssuance.Builder.Build | internal/sdjwt/builder.go:66-144 | the serialization of all disclosures, each made of its claim and its own salt, behind a JWT signed over their digests; says for each failure exactly when it comes, in order: no vct, too few salts, holder key, claims refused by the JWT library, headers, signer |
| SdJwtIssuance.Builder.WithDisclosures | internal/sdjwt/builder.go:136-143 | the writer loop yields the tilde serialization of the JWT and all disclosures |
| SdJwtIssuance.ChosenClaimsAre | internal/sdjwt/builder.go:56-62 | the selected claims are there under their names with their values, and no others |
| SdJwtIssuance.RevealChosen | internal/sdjwt/builder.go:91-93 | going through the digests puts in exactly the selected claims, or fails exactly when one of them clashes |
| SdJwtIssuance.HolderCutsAtTildes | internal/sdjwt/builder.go:136-143 | the holder recovers the JWT and every disclosure from Build's output |
| SdJwtIssuance.IssuedHoldsDisclosures | internal/sdjwt/builder.go:64-144 | cut at its tildes, the text yields for every claim a disclosure made of that claim and of the salt drawn for it |
| SdJwtIssuance.PayloadHoldsDigests | internal/sdjwt/builder.go:91-93 | the payload a verifier accepts lists the SHA-256 of each of these, in their order, and says so |
| SdJwtIssuance.PresentationVerifies | internal/sdjwt/builder.go:64-144 | for any selection in any order: accepted exactly when no selected name is reserved or taken, and then exactly the plain and the selected claims are recovered |
| SdJwtIssuance.SharedNameIsRejected | internal/sdjwt/builder.go:94-96 | disclosing a selective claim named like a plain one is always rejected |
| SdJwtIssuance.OnlyIssuedDisclosuresVerify | internal/sdjwt/disclosure.go:45-51 | the issued JWT is accepted only with disclosures issued with it, or that collide with one |
| PidCredential.AddSelectiveClaims | internal/issuance/service.go:394-396 | each claim of the record once, in any map order |
| PidCredential.PidBuilder | internal/issuance/service.go:387-399 | a builder with the PID settings: every claim of the record selective, authority, country and status index plain, the holder key |
| PidCredential.BuildSdJwtCredential | internal/issuance/service.go:381-402 | the credential is an issued SD-JWT with the PID settings; fails exactly for want of salts or of a public JWK, else only for headers, for those very claims refused, or for that very payload unsigned |
| PidCredential.ReadStatusOf | internal/issuance/service.go:377-379 | a relying party reads from the status claim the index and the address put in |
| PidCredential.PidPayload | internal/issuance/service.go:377-399 | the payload has exactly the listed names, names authority and country, and its status reads as the index and the list's address |
| PidCredential.PidSays | internal/issuance/service.go:381-402 | it names the issuer, the type, the subject, the time and a year from it, the wallet's key, authority, country, and the status |
| PidCredential.PidClashes | internal/issuance/service.go:394-399 | a disclosed claim clashes exactly when its name is one of the twelve reserved or used ones |
| PidCredential.PidPresentationVerifies | internal/issuance/service.go:381-402 | a PID presentation is accepted exactly when no disclosed name is reserved, and then yields what the issuer says, status index and address included, each disclosed claim as it stood in the record, and none kept back |
| PidCredential.AddClaims | internal/issuance/service.go:416-418 | each claim of the record once, in any map order |
| PidCredential.FillMdocBuilder | internal/issuance/service.go:404-421 | the builder holds the claims, then authority, country and the status element |
| PidCredential.BuildMdocCredential | internal/issuance/service.go:404-424 | the text is base64url of a signed IssuerSigned over the claims and the status, to the wallet's key; fails exactly for want of randomness or of an EC key, or for what the signer answers to that very MSO |
| PidCredential.ElementStatusOf | internal/issuance/service.go:377-379 | a verifier reads from the status element the index and the address put in, in either order of the map |
| PidCredential.PidElementAt | internal/mdoc/element.go:53-82 | a claim of the record reads as a text, a date of birth as a full date; authority, country and status as the issuer's |
| PidCredential.StatusByName | internal/issuance/service.go:416-421 | everything shown as status holds the index and the address exactly when no claim of the record called status is among it |
| PidCredential.TextByName | internal/issuance/service.go:416-420 | everything shown as issuing authority or country is the issuer's exactly when no claim of the record with the name and another value is among it |
| PidCredential.MdocSays | internal/issuance/service.go:404-424 | of any selection a verifier reads the issuer's certificates, version, validity and the wallet's key |
| PidCredential.MdocIsSalted | internal/mdoc/item.go:54-66 | and each item holds its digestID and the random octets drawn for its element |
| PidCredential.MdocStatusIsRecovered | internal/issuance/service.go:404-424 | any selection of a PID mdoc verifies, shows the record's claims as they stood there, and reads by name under exactly these conditions |
| PidCredential.StatusElementIsShown | internal/issuance/service.go:421-421 | the status element, where presented, is there under its name with the index and the address |
| PidCredential.TwoOfTheName | internal/issuance/service.go:416-421 | with a claim called status, a presentation of two elements of that name, the first without an index |
| PidCredential.MdocStatusIsUnambiguous | internal/issuance/service.go:404-424 | the status reads by name whatever is presented exactly when the record has no claim called status |
| CredentialText.BuildSdJwt | internal/issuance/service.go:381-402 | a text over the record's data carrying the index, or a failure with a reason, unreadable data included |
| CredentialText.BuildMdoc | internal/issuance/service.go:404-424 | the same for an mdoc |
| CredentialText.SdJwtTextIsRead | internal/issuance/service.go:381-402 | end to end: from any disclosures cut from the text, in any order, a verifier reads the index, the list's address, issuer, subject, dates and key, and the disclosed claims of the record, or refuses exactly for a reserved name |
| CredentialText.SdJwtTextIsSalted | internal/sdjwt/builder.go:66-144 | every disclosure cut from the text is made of one claim of the record and the salt drawn for it, and every claim has one |
| CredentialText.MdocTextIsRead | internal/issuance/service.go:404-424 | end to end: the text decodes to the whole mdoc, and any of its elements read as they should: certificates, validity, key, random octets, claims as they stood in the record, and the status by name |
| CredentialText.ValidSignaturesAreAccepted | internal/mdoc/cose.go:42-101 | a signer whose DER answers are valid ECDSA signatures without negative numbers makes mdocs that the ES256 verifier accepts |
| Paging.BeforeIsStrictOrder | internal/issuance/store.go:142-172 | the sort's comparison is a strict order, total but for equal keys, and is the comparator wherever keys differ |
| Paging.TextLessMeans | internal/issuance/store.go:161-172 | one text is less exactly when it is a proper prefix or has the lesser character where they first differ |
| Paging.SortSlice | internal/issuance/store.go:142-148 | every record once; in order when keys are distinct; ascending, no pair the wrong way round even with ties |
| Paging.OrderedListing | internal/issuance/store.go:142-148 | such a listing exists for any records and either order |
| Paging.CollectAll | internal/issuance/store.go:135-140 | every record once, in whatever order the map yields them |
| Paging.FindAll | internal/issuance/store.go:127-159 | the asked part of such a listing, empty past its end, and the total |
| Paging.PageIsInAskedOrder | internal/issuance/store.go:142-172 | a page reads in the order asked for, by the field asked for: ascending for asc, ties or not, else descending when keys differ; fields not listed mean created_at |
| Paging.SortedListingIsUnique | internal/issuance/store.go:135-148 | with distinct keys calls that collect the records in different orders get one listing |
| Paging.PagesAreThePrefix | internal/issuance/store.go:150-158 | pages 1 to n, each from a call of its own, join to the first n times size records |
| Paging.PagesCoverAllRecords | internal/issuance/list.go:34-62 | enough pages hold every record exactly once, in order, and later pages are empty |
| Paging.TiesRepeatARecord | internal/issuance/store.go:142-148 | for any two records with equal keys there are pages, one for each record, that show one of the two twice and the other never |
| Paging.PagingWorksWhenKeysDiffer | internal/issuance/list.go:34-62 | enough pages of any size are sure to hold every record exactly once exactly when no two records share a key |
| IssuanceService.Service.constructor | internal/issuance/service.go:82-92 | a new service has no cached list |
| IssuanceService.Service.TriggerIssuance | internal/issuance/service.go:116-145 | success leaves an offered record, found by its issuer_state, and its offer; each failure says what is left behind |
| IssuanceService.AccessVerdict | internal/issuance/service.go:198-210 | refused for the token exactly when that does not pass, for the proof exactly when the token passes and that does not, and for the key exactly when both pass and the proof's is not the token's; else the answer is what the token says |
| IssuanceService.Service.Authorize | internal/issuance/service.go:198-210 | passes exactly with a verified token, a well-formed, fresh DPoP proof, and a proof key that is the token's, and hands on what the token says, else reports the first check that fails; a jti is spent only behind a valid token |
| IssuanceService.Service.GenerateNonce | internal/issuance/service.go:172-191 | always registers the nonce; hands it out exactly when no token is presented or the one presented passes all access checks |
| IssuanceService.Service.ValidateProofNonce | internal/issuance/service.go:292-304 | passes exactly for a registered nonce, which is spent, or the token's own c_nonce |
| IssuanceService.Service.IssueCredential | internal/issuance/service.go:197-269 | issues exactly when access checks, request, proof nonce, record data and build are all in order, else reports the first that is not; the credential is for the record that the token names, in the format of the configuration asked for, to a proof by the token's key; its text carries its record's own index, the record is marked issued, the proof nonce is unusable in the store afterwards; a refusal leaves records alone, and the allocator too unless the build failed; no other record and no other entry changes; an unissued record gains an entry without being issued exactly when it has data and its build fails |
| IssuanceService.Fault | internal/issuance/service.go:212-234 | each refusal exactly when the checks before it pass and its own fails; none exactly for one of the two PID configurations, no identifier, and a proof that verifies |
| IssuanceService.RequestFault | internal/issuance/service.go:212-247 | each refusal exactly when the checks before it pass and its own fails; none exactly when request, proof nonce, record link and data are in order |
| IssuanceService.Service.CheckRequest | internal/issuance/service.go:212-234 | the request's own checks in their order |
| IssuanceService.Service.IssueFor | internal/issuance/service.go:212-268 | the same as IssueCredential behind the access checks: the first fault, or what the build comes to for the record named, in the format of the configuration asked for; with the nonces left |
| IssuanceService.Service.IssueRecord | internal/issuance/service.go:244-265 | refuses exactly a record without data; an unissued record gains an entry without being issued exactly when it has data and the build fails |
| IssuanceService.Service.AllocateAndBuild | internal/issuance/service.go:249-265 | a text over the record's data with the record's own index, or a build failure with a reason that leaves the allocation behind |
| IssuanceService.Service.BuildText | internal/issuance/service.go:255-263 | the builder of the format asked for |
| IssuanceService.HandedOutSdJwtIsRead | internal/issuance/service.go:197-269 | end to end: from whatever the holder of an SD-JWT handed out presents, a verifier reads the index the record owns in the allocator and the claims disclosed |
| IssuanceService.HandedOutMdocIsRead | internal/issuance/service.go:197-269 | end to end: the same of an mdoc handed out, by the names of its elements |
| IssuanceService.RevokedSdJwtReadsRevoked | internal/issuance/service.go:197-371 | from the revocation to the verifier: once it has returned, whoever reads an SD-JWT handed out for the record reads the index that the record owns, and finds INVALID there in every list handed out later |
| IssuanceService.RevokedMdocReadsRevoked | internal/issuance/service.go:197-371 | the same of an mdoc, for any selection of its elements that shows no claim of the record called status |
| IssuanceService.Service.GetStatusListToken | internal/issuance/service.go:310-341 | serves the cached list exactly while fresh; a new one shows the store's status at every index and covers every entry; a failure keeps the cache |
| IssuanceService.BuildList | internal/issuance/service.go:325-333 | the built list reads as the entries at every index |
| IssuanceService.Service.RevokeCredential | internal/issuance/service.go:349-371 | succeeds exactly on an issued record with an entry; then INVALID is stored and no list is cached; a refusal tells which of the conditions fails and changes nothing |
| IssuanceService.LabelIsWhatIsListed | internal/issuance/list.go:66-81 | at any point of a run the label of a record with an entry is `revoked` exactly when a list built then reads INVALID at its index, and `valid` otherwise |
| IssuanceService.Service.ViewsOf | internal/issuance/list.go:45-81 | each record in order with the label that its own status entry's value stands for, none without an entry |
| IssuanceService.Service.ListIssuanceRecords | internal/issuance/list.go:34-81 | the page asked for, with defaults, of an ordered listing, each record with the label of its status entry's value, and the total |

## Left out

- HTTP handlers, CORS, Swagger, web UI, configuration, `main.go`: input and output around the service.
- JWS and JWT parsing, signature algorithms, X.509, PEM and remote signing: verdicts or functions that may fail, given as parameters.
- JSON and zlib: an encode/decode pair with a stated inverse; that JSON encoding of a disclosure may fail is not modelled, as the service gives it strings only. The claims read from a record's data enter as names with their printed values.
- JWS headers of an SD-JWT (`typ`, `kid`, `x5c`): their encoded octets are given as a parameter, and covered by the signature.
- `htuMatches`: its verdict is a parameter; the behaviour is that of Go's URL library.
- Status List Token claims other than the bit array (`ttl`, `exp`, `sub`): flat copies.
- `credentialconfig`, OID4VCI metadata, offers and responses, the registry client: short mappings.
- `extractSubjectName` and date formatting in listings: string extraction from JSON.
- SQL scanning and the record queries of the Postgres store: their meaning is used in `StoreSpec.IndexAgreesWithScan`, their text is not modelled; nor is the foreign key, which can only make an insert fail.
- A panic while an mdoc is being signed ends the request as a failed build does; that the server recovers from it is not modelled.
- A record that is inserted although its caller is told otherwise: `TriggerCreate` without any further step of that call leaves the same stores.
- Several issuer processes on one database: the list cache is one process's, and so are the visibility results.
- 64-bit overflow: `size*2+7`, `(page-1)*size` and indices are unbounded integers.
- The random source: it yields its successive reads and fails by running out; that two draws differ is an assumption, stated where it is used.
- Stopping a process: stores in memory start empty, and runs start there.
- Paging.SortSlice: an insertion sort stands for Go's sort, and promises no more than that does: descending, `!less` is no strict order on equal keys, so with ties nothing is claimed of the order.
- Cbor.DecodeEncode: covers integers, strings, arrays, maps and tags of definite length below 2^64; floats, simple values and indefinite lengths do not occur in the issued mdoc.
- SdJwtIssuance.PresentationVerifies: the verifier knows top-level digests only, as the issuer makes no others; nested `_sd`, `...` in arrays and the Key Binding JWT are not modelled, nor the checks on `exp` and other claim values.
- SdJwtIssuance.Builder.AssembleClaims: the JWT library's typed handling of registered claims is a verdict on the claims as given.
- MdocIssuance.PresentationVerifies: checks on validity dates, certificates and the device key belong to the verifier's environment and are not part of this model.
- AccessToken.Verifier.Verify: issuer, audience and expiry are part of the library's verdict.
