# Developer CA: a verified model

Developer CA is a certificate authority on a serverless worker and a transactional SQL store. This
project models its protocols and its signing formats in Dafny and proves what they promise, for
every input, every run and every interleaving.

How the model is built:

- **Signing formats.** `Wire`, `Cryptography`, `TrustMaterial`, `TrustMessage`,
  `RevocationMaterial`, `RevocationMessage`, `DelegationToken`, `SigningKinds` and
  `CertificateRequest` model the trust and token crates and `src/certificate.rs`. Encoders and
  validators are methods with the source's loops; each encoder has a decoder that inverts it.
  `MessageLayout` fixes the place and the bytes of every field, and `VerifiedMaterial` says what
  is accepted in terms of the fields themselves.
- **Batches.** `RevocationStore`, `IssuanceStore`, `RateLimiter`, `TrustRegistry`, `ReplayCache`,
  `Enrollment` and `Approval` hold classes whose fields are the tables. Each method performs a
  batch statement by statement, under the constraints, indexes and triggers of the migrations, and
  is proved to have the outcome of a specification function: all of the batch or none of it.
- **Interleavings.** `RevocationPublication`, `Issuance`, `IssuanceSpacing`, `TrustChain`,
  `RateLimiter` and `Approval` define state machines. A handler is a run with a phase; one action
  performs the run's next database call, so other runs, failures and crashes may come between any
  two calls. `RevocationFreshness` gives every action a time of its own, and
  `IssuanceSpacingLimits` plays two histories that break a promise. `RevocationOutcomes`,
  `IssuanceOutcomes` and `TrustOutcomes` say what each kind of run achieves from any reachable state. An action that does not apply
  changes nothing, so every sequence of actions is a history and the theorems quantify over all of
  them.
- **Decisions.** `CertificateStatus` models the signer, the signing of a certificate and the
  status endpoint over whatever the handler has read.

Assumptions, all explicit in the statements that use them:

- `Primitives.Lawful`, `Codec.Lawful`, `Toolkit.Lawful` and `Format.Lawful` list what is assumed of
  Ed25519, SHA-256, base64, JSON and the MCER crate, none of which is in the repository: signing and
  checking agree, under one key a signature fixes its message, encodings round trip, and hashes do
  not collide. `LawfulModels` gives a model of each: `LawfulPrimitivesExist`, `LawfulCodecExists`,
  `LawfulToolkitExists` and `LawfulFormatExists` show that the laws can be met together.
- One `run`, `first`, `all` or `batch` call is one atomic step. New row ids never repeat.
- Clocks are arbitrary integers given to each step. Where a result needs clocks in some order, the
  order is a named predicate (`Timely`, `LagBounded`, `OnSchedule`, `StrictClocks`, `InOrder`).

Where a promise holds only under a condition, the model gives the condition and a history that
breaks the promise without it:

- `LateRefreshLapses`: cron ticks 1,800 s apart whose refreshes all succeed are not enough, because a
  refresh takes time. What counts is that each refresh ends no later than 1,800 s after the previous
  successful one began. One second later the published list has expired.
- `LateRunAllowsDuplicates`: a run that outlives its claim lets two certificates for one request
  start a second apart, with every clock in order. `OutOfOrderAllowsDuplicates`: a claim inserted
  with an earlier clock than a prune lets two start 299 s apart, with no run in flight at any prune.
- `LagBoundIsTight`: one more second of clock lag lets an eleventh attempt through.
- `RolloverCanBeRefused`: a snapshot that hands over from an active issuer to one that sorts before
  it passes every check and is refused by the batch, which changes nothing.
  `LawfulModels.RefusedRolloverExists` exhibits two such snapshots.
- `DelayedConsumptionIsAccepted`: a token verified a second before its expiry and consumed at it is
  accepted again. `CrowdLetsTokenInTwice`: 9,999 tokens that expire later push one out of the cache,
  and it is accepted again long before its expiry. `CrowdingMeansSecondUse` proves that of every
  history, and `SecondUseIffExpiredOrCrowded` is the exact condition when no rows tie.
- `SameSecondLosesReview`: two rounds of review in one second leave the event log behind the state.

## Model

| member | source | states |
|---|---|---|
| Wire.U32IsLittleEndian | crates/trust/src/lib.rs:531-537 | 32-bit fields are written low byte first |
| Wire.U64IsLittleEndian | crates/trust/src/lib.rs:539-541 | 64-bit fields are written low byte first |
| Wire.ReadsText | crates/trust/src/lib.rs:525-529 | a length-prefixed text is read back whatever follows it |
| Prelude.FirstDifferenceDecides | crates/trust/src/lib.rs:352-358 | texts are ordered by the first byte that differs, and a proper prefix comes first |
| Wire.PutAllFromFront | crates/trust/src/lib.rs:469-484 | lists are written front to back |
| MessageLayout.TrustFieldsAreAt | crates/trust/src/lib.rs:460-488 | every field of a trust message stands at its offset in its bytes, after the 33-byte domain |
| MessageLayout.IssuerFieldsAreAt | crates/trust/src/lib.rs:469-484 | so does every field of an issuer in it, with 1 to 4 for the status |
| MessageLayout.RevocationFieldsAreAt | crates/trust/src/lib.rs:490-507 | every field of a revocation message stands at its offset, after the 31-byte domain |
| MessageLayout.EntryFieldsAreAt | crates/trust/src/lib.rs:499-503 | so does every field of an entry in it, with its reason in words |
| TrustMaterial.ValidateIssuer | crates/trust/src/lib.rs:367-392 | accepts exactly the valid issuer records; each error reports a defect that is there |
| TrustMaterial.ValidateIssuers | crates/trust/src/lib.rs:346-364 | one pass comparing neighbours accepts exactly the lists that are valid record by record and strictly sorted, and counts the active ones |
| TrustMaterial.ValidateTrust | crates/trust/src/lib.rs:326-365 | accepts exactly the contents that are valid, sorted at any distance and have at most one active issuer; each error names a real defect |
| TrustMaterial.CountActiveSeesPairs | crates/trust/src/lib.rs:345-363 | the loop's counter exceeds one exactly when two different positions are active |
| TrustMaterial.FoundIsUnique | crates/trust/src/lib.rs:257-262 | in a sorted list, the first issuer found under a key is the only one |
| TrustMaterial.ValidateTrustSuccessor | crates/trust/src/lib.rs:245-271 | accepts exactly the successors: later version, no earlier time, every issuer carried on under its key by an allowed transition; each error has its witness |
| TrustMaterial.SuccessionIsByIssuer | crates/trust/src/lib.rs:245-312 | of two valid snapshots the later succeeds the earlier exactly when each issuer is still there under its key, with its status kept, moved one step on, or revoked |
| TrustMaterial.OneStatusMayChange | crates/trust/src/lib.rs:298-312 | from any valid snapshot one status may change exactly so, as long as nobody else is active; revoking is always accepted |
| VerifiedMaterial.TrustIsJudgedExactly | crates/trust/src/lib.rs:326-392 | the trust validator accepts exactly the contents whose fields are in order, number by number and character by character |
| VerifiedMaterial.RevocationsAreJudgedExactly | crates/trust/src/lib.rs:394-458 | the revocation validator accepts exactly the contents whose fields are in order |
| VerifiedMaterial.TrustIsVerifiedExactly | crates/trust/src/lib.rs:189-202 | a trust snapshot verifies exactly when it is in order, names the root key, carries its signature, and the clock is at most 300 s before its making and before its expiry |
| VerifiedMaterial.RevocationsAreVerifiedExactly | crates/trust/src/lib.rs:225-238 | the same for a revocation snapshot whose message fits 4 MiB |
| TrustMessage.EncodeContent | crates/trust/src/lib.rs:460-488 | the buffer the loops append to is the canonical encoding, within 4 MiB, or an error that is due |
| TrustMessage.TrustSigningMessage | crates/trust/src/lib.rs:460-488 | a valid content always has a signing message, and it is its canonical encoding |
| TrustMessage.TrustRoundTrip | crates/trust/src/lib.rs:460-488 | decoding an encoded trust content gives the content back |
| TrustMessage.TrustMessageIsInjective | crates/trust/src/lib.rs:460-488 | two contents with one signing message are equal |
| TrustMessage.ValidTrustFits | crates/trust/src/lib.rs:525-549 | the overflow and size errors cannot happen on valid contents |
| TrustMessage.IssueTrust | crates/trust/src/lib.rs:174-187 | signs exactly valid contents that name the signing key |
| TrustMessage.VerifyTrust | crates/trust/src/lib.rs:189-202 | accepts exactly valid contents under the named key, inside the window with its skew, with a checking signature |
| TrustMessage.IssuedTrustBindsContent | crates/trust/src/lib.rs:174-202 | an issued signature verifies for its own content exactly inside its window, and for no other content ever |
| RevocationMaterial.ReasonRoundTrip | crates/trust/src/lib.rs:82-103 | reason codes and their texts determine each other |
| RevocationMaterial.ValidateRevocations | crates/trust/src/lib.rs:394-436 | accepts exactly the valid, strictly sorted lists; each error names a real defect |
| RevocationMaterial.ValidateRevocationSuccessor | crates/trust/src/lib.rs:273-296 | accepts exactly later lists that repeat every revocation unchanged; each error has its witness |
| RevocationMessage.EncodeContent | crates/trust/src/lib.rs:490-507 | the buffer the loop appends to is the canonical encoding, within 4 MiB, or an error that is due |
| RevocationMessage.RevocationSigningMessage | crates/trust/src/lib.rs:490-507 | signing bytes exist exactly for valid lists of at most 4 MiB |
| RevocationMessage.RevocationRoundTrip | crates/trust/src/lib.rs:490-507 | decoding an encoded list gives the list back |
| RevocationMessage.RevocationMessageIsInjective | crates/trust/src/lib.rs:490-507 | two lists with one signing message are equal |
| RevocationMessage.IssueRevocations | crates/trust/src/lib.rs:210-223 | signs exactly the signable lists that name the signing key |
| RevocationMessage.VerifyRevocations | crates/trust/src/lib.rs:225-238 | accepts exactly signable lists under the named key, inside the window, with a checking signature |
| RevocationMessage.IssuedRevocationsBindContent | crates/trust/src/lib.rs:210-238 | an issued signature verifies for its own list exactly inside its window, and for no other list ever |
| SigningKinds.KindsNeverMeet | crates/trust/src/lib.rs:9-10 | no trust, revocation or token message equals one of another kind |
| SigningKinds.SignatureServesOneKind | crates/trust/src/lib.rs:509-523 | under one key, a signature that checks for one kind checks for no other |
| DelegationToken.SigningMessage | crates/auth-token/src/lib.rs:98-110 | every payload that fits 32 bits of length can be read back from its message, and a longer one is an error |
| DelegationToken.PayloadRoundTrip | crates/auth-token/src/lib.rs:98-110 | the payload can be read back from the signed message |
| DelegationToken.Issue | crates/auth-token/src/lib.rs:51-68 | issues exactly claims valid at their own time whose token fits |
| DelegationToken.Verify | crates/auth-token/src/lib.rs:70-96 | answers claims exactly when the token has three parts, a checking signature and claims valid now |
| DelegationToken.IssuedTokenAnswersItsClaims | crates/auth-token/src/lib.rs:51-96 | an issued token answers its own claims and nothing else, from 30 s before issue until expiry |
| DelegationToken.SignatureBindsPayload | crates/auth-token/src/lib.rs:70-110 | the signature of an issued token carries no other payload |
| DelegationToken.ClaimsAreJudgedExactly | crates/auth-token/src/lib.rs:112-164 | claims are accepted exactly when no text is empty, too long or outside its alphabet, they last at most 900 s, and the clock is from 30 s before issue until expiry; each refusal is given exactly when it is due |
| DelegationToken.TokensAreAcceptedExactly | crates/auth-token/src/lib.rs:70-96 | a token answers claims exactly when it is "mca1." and two texts with a dot between, within the size limits, correctly signed, with such claims |
| DelegationToken.TokensLiveBriefly | crates/auth-token/src/lib.rs:137-147 | no token is accepted at two times 930 s apart or more |
| CertificateRequest.Hex | src/certificate.rs:271-279 | two digits a byte, high half first |
| CertificateRequest.HexRoundTrip | src/certificate.rs:213-229 | hexadecimal decodes back to the bytes |
| CertificateRequest.SpellingsOfOneKey | src/certificate.rs:213-229 | base64, hex and any casing of hex name the same 32 bytes |
| CertificateRequest.KeysAreDecodedExactly | src/certificate.rs:213-229 | a text names a key exactly when, but for blanks around it, it is the base64 or the hexadecimal of 32 bytes that are a point |
| CertificateRequest.PrefixScopesEndInStar | src/certificate.rs:231-242 | a text is a prefix scope exactly when it ends in ".*", and then for what comes before |
| Sorting.DuplicatesShow | src/certificate.rs:65-75 | after sorting by a key that tells values apart, comparing neighbours finds every duplicate |
| CertificateRequest.ParseScopes | src/certificate.rs:231-262 | accepts exactly lists without a repeated scope that the format admits in sorted order, and answers them sorted; a duplicate is told apart from a scope the format refuses |
| CertificateRequest.Validate | src/certificate.rs:56-76 | accepts exactly the acceptable requests, of any number of scopes in any order, and answers their key |
| CertificateRequest.IntoRequest | src/certificate.rs:39-53 | accepts exactly well-formed inputs, in any capability order, and answers their canonical request |
| CertificateRequest.AcceptedMeans | src/certificate.rs:39-76 | an input is accepted exactly when package, scope and key are in order and its capabilities admitted and different; its request has that package alone, the key in base64, and the capabilities sorted |
| CertificateRequest.CanonicalIsIdempotent | src/certificate.rs:39-53 | canonicalising a canonical request changes nothing |
| CertificateRequest.CanonicalIsAcceptable | src/certificate.rs:39-76 | what canonicalisation produces passes the request validator |
| CertificateRequest.SameHashMeansSameRequest | src/lib.rs:240-257 | two accepted inputs share a hash exactly when they are of one developer and name one key, one package and one set of capabilities |
| RevocationStore.Store.RevokeCertificate | src/store.rs:906-946 | the whole batch or none of it: a version collision in the fifth statement undoes the first four |
| RevocationStore.Store.SaveRevocationSnapshot | src/store.rs:969-996 | stores the version as current, or changes nothing if the version exists |
| RevocationStore.Store.WriteSuspension | src/store.rs:866-893 | the batch suspends or restores whatever the status, also after a stale read, and never undoes a revocation |
| RevocationStore.Store.SetCertificateSuspension | src/store.rs:852-895 | run without interruption, suspends or restores a usable certificate and leaves a revoked one alone |
| RevocationStore.BuildList | src/lib.rs:1930-1958 | the sorted list of the table and the additional entry, or the conflict exactly when its serial is there |
| RevocationPublication.BuildRevocationSnapshot | src/lib.rs:1923-2006 | list, version, times, signature, anti-rollback check and JSON limit together, with the failure of the first step that fails |
| RevocationPublication.PublishedListIsTheTable | src/lib.rs:1923-1958 | under every interleaving versions are 1..n, n is current, and its list is the revocations table sorted by serial |
| RevocationPublication.StaleBatchAborts | src/store.rs:906-946 | a batch commits exactly when no version was stored since its run read; otherwise no table changes |
| RevocationPublication.StoredPairsAreSuccessors | crates/trust/src/lib.rs:273-296 | any two stored versions pass the anti-rollback validator in order |
| RevocationPublication.RollbackIsUnreachable | src/lib.rs:1980-1998 | the anti-rollback branch cannot fail, whatever was stored between the two reads |
| RevocationPublication.NoRunRollsBack | src/lib.rs:1980-1998 | no run of any history ends in that branch |
| RevocationPublication.RevocationAbsorbs | src/store.rs:852-946 | once revoked, a certificate stays revoked with exactly one row, whatever suspends, restores and revokes follow |
| RevocationPublication.RowsMeanRevoked | src/store.rs:778-787 | a revocations row exists exactly for revoked certificates |
| RevocationPublication.FinishedRefreshIsFresh | src/lib.rs:2055-2088 | a refresh that ends well leaves the current snapshot good for more than 30 minutes after the refresh began |
| RevocationOutcomes.PublishedVerifiesAtOnce | src/lib.rs:1927-1964 | no list is dated ahead of the clocks of the runs, so its signature verifies from its commit until its expiry |
| RevocationOutcomes.CommitPublishes | src/lib.rs:1923-1978 | whatever came in between, a commit adds one version, dated by the run or by the list before if that is later, lasting 3,600 s, listing the table with the row that was asked for, and touches no other status |
| RevocationOutcomes.RevocationsAreThoseAsked | src/lib.rs:2096-2166 | over every interleaving the table and the published list are what they were plus one entry for every revocation that ended well, with its serial, its reason and its time |
| RevocationOutcomes.StatusChangesAreAsked | src/store.rs:778-946 | a status changes only by an issue, by a suspension run that writes, or by a revocation that commits |
| RevocationOutcomes.SuspensionRunWrites | src/store.rs:852-895 | a suspension run that nobody interrupts writes what it was asked unless the certificate is unknown or revoked |
| RevocationOutcomes.RevocationRunSucceeds | src/lib.rs:2090-2166 | from every reachable state a revocation that nobody interrupts succeeds exactly for the usable and the suspended whose next list can be signed, with each refusal when it is due |
| RevocationOutcomes.RefreshRunPublishes | src/lib.rs:2015-2088 | a rebuild publishes the table anew, and a refresh does so exactly when no list is left or the last expires within 1,800 s |
| RevocationFreshness.FreshSinceLastRefresh | src/lib.rs:31-35 | since the end of the last refresh the current snapshot outlives its beginning by the refresh window, whatever steps of other runs came in between |
| RevocationFreshness.NeverExpiresOnSchedule | src/lib.rs:2055-2088 | with every step taking its time: if each refresh ends no later than 1,800 s after the previous successful one began, there is an unexpired snapshot at every instant from the first refresh on |
| RevocationFreshness.LateRefreshLapses | src/lib.rs:2055-2088 | a refresh that ends any later than that leaves an expired snapshot current, though both ticks were regular and both refreshes ended well |
| IssuanceStore.Store.PruneClaims | src/store.rs:566-572 | in any state, afterwards a request is barred exactly by a claim for it, under its key or its hash, younger than 300 s |
| IssuanceStore.Store.InsertClaim | src/store.rs:598-615 | in any state, a winner holds the only claim of its developer and hash, a loser changes nothing and has a row to find, and the request cannot be inserted again |
| IssuanceStore.Store.FindByHash | src/store.rs:619-628 | finds a row of the developer and hash exactly if there is one |
| IssuanceStore.Store.ClaimCertificateIssue | src/store.rs:558-636 | run without interruption: prunes, then claims exactly when neither the key nor the request is taken; the other answers say which row answered |
| IssuanceStore.Store.AbandonCertificateIssue | src/store.rs:638-659 | removes the run's own pending row and no other |
| IssuanceStore.Store.ReserveCertificateSerial | src/store.rs:541-556 | hands out the next number and moves past it |
| IssuanceStore.Store.IssueCertificate | src/store.rs:702-776 | request, certificate, completed claim and audit row together, exactly for a member eligible at commit |
| Issuance.AnswersAreForTheRequest | src/store.rs:573-636 | with no assumption on time, a completed answer is a certificate of the asking developer for the same key, scopes and capabilities, also after a lost insert race |
| Issuance.SerialsAreNeverReused | src/store.rs:541-556 | reserved numbers are distinct, positive and below the sequence; the number on a certificate is that of the one run that issued it, so those of abandoned and crashed runs stay off every certificate |
| Issuance.ReservedSerialIsKept | src/lib.rs:678-691 | a run never trades its number for another, also when it fails |
| Issuance.IssuanceIsConserved | src/store.rs:702-776 | one action adds a request, a certificate and an audit row for its own run and an eligible member, or none of them |
| Issuance.LedgerBalances | src/store.rs:719-774 | over any history the three tables grow alike, one row each for every run that issued, and each certificate has its own request and audit row |
| IssuanceOutcomes.BarredMemberIsNotIssued | src/store.rs:720-735 | while a member is a viewer, inactive or gone, or its developer inactive or not verified, no run of that member adds a certificate, however far along it is |
| IssuanceOutcomes.CommitFollowsStanding | src/store.rs:702-776 | conversely a commit issues exactly for an active owner, admin or developer of an active and verified developer |
| IssuanceOutcomes.RequestsAreAnsweredExactly | src/store.rs:558-659 | from any reachable state an uninterrupted request is answered by the claims younger than 300 s: conflict, certificate, wait, a new certificate, or a refusal that gives the claim back, each exactly when it is due |
| IssuanceOutcomes.RetryGetsTheCertificate | src/store.rs:573-597 | a retry within 300 s is answered with the certificate that was issued |
| IssuanceOutcomes.SerialsAreConsecutive | src/store.rs:541-556 | every number below the sequence was handed to some run |
| IssuanceSpacing.DuplicatesAreSpaced | src/store.rs:558-659 | in timely histories two certificates of one developer for one request start 300 s apart or more |
| IssuanceSpacingLimits.LateRunAllowsDuplicates | src/store.rs:638-659 | with all clocks in order, a run that outlives its claim lets two start one second apart |
| IssuanceSpacingLimits.OutOfOrderAllowsDuplicates | src/store.rs:566-615 | with no run outliving its claim, an insert out of order lets two start 299 s apart |
| RateLimiter.Limiter.Prune | src/store.rs:669-672 | keeps exactly the attempts of the last 24 hours |
| RateLimiter.Limiter.InsertIfAdmitted | src/store.rs:673-694 | accepts exactly when all three counts are below their limits |
| RateLimiter.Limiter.RecordAttempt | src/store.rs:661-700 | run without interruption, the prune never changes the decision |
| RateLimiter.RecentCounts | src/store.rs:673-694 | the count of the query is the number of attempts of that account, developer or key made after the time given |
| RateLimiter.CheckSeesFullHistory | src/store.rs:669-694 | with clocks at most 82,800 s out of order, the check on the pruned table is the check on the full history |
| RateLimiter.WindowsAreLimited | src/store.rs:673-694 | then every window of 3,600 s holds at most 20 accepted attempts an account, 20 a developer and 10 a key |
| RateLimiter.LagBoundIsTight | src/store.rs:669-694 | at 82,801 s a window can hold eleven for one key |
| TrustRegistry.UpsertOutcome | src/store.rs:1071-1105 | one upsert of the loop goes through exactly when the rollover stays in order, and writes the issuer's row |
| TrustRegistry.ProjectionHoldsExactly | src/store.rs:1071-1105 | a registered snapshot has one row an issuer, field by field, and no other |
| TrustRegistry.Store.RegisterTrustSnapshot | src/store.rs:1042-1116 | the loop commits exactly when the version is new and the old active issuer is absent, unchanged or sorts before the new one; then the registry is the snapshot, otherwise nothing changes |
| TrustRegistry.Store.SetIssuerStatus | src/store.rs:1118-1143 | in any state, a status is written without ever making a second active issuer and touches no other row |
| TrustRegistry.StatusWriteKeepsSync | src/lib.rs:1453-1465 | on a registry in sync, a status write keeps it in sync exactly when the snapshot signs that status |
| TrustChain.RegistrationCommits | src/lib.rs:1339-1394 | in every reachable state a valid successor is registered exactly when the rollover is in order, also after stale status writes |
| TrustChain.RegistryChecksNeverRefuse | src/lib.rs:1352-1380 | in every reachable state the checks against the registry refuse no successor of the current snapshot: their three refusals are unreachable |
| TrustChain.RolloverCanBeRefused | migrations/0002_trust_issuers_policy.sql:18-19 | a successor that passes every check can be refused by the single-active index, and then nothing changes |
| TrustChain.HistoriesAreChains | crates/trust/src/lib.rs:245-271 | versions strictly increase, no issuer disappears, keys never change and status ranks never fall |
| TrustChain.RetiredWasActive | crates/trust/src/lib.rs:298-312 | an issuer that was future and is retired was active in a snapshot strictly between |
| TrustChain.AgreementMeansCurrent | src/lib.rs:1775-1795 | a registry row that agrees with the snapshot read proves that snapshot still current |
| TrustChain.RevokedIsNeverChosen | src/lib.rs:1696-1796 | once a snapshot revokes an issuer no signer goes ahead with it, whatever stale reads and status writes interleave |
| TrustChain.RegisteredIssuerIsChosen | src/lib.rs:1696-1796 | right after a registration, a signer whose key the new snapshot authorizes goes ahead |
| TrustChain.PromptStatusRunKeepsSync | src/lib.rs:1432-1496 | a status run with no registration between its read and its write changes nothing in a registry that is in sync when the write comes, whatever other runs did in between |
| TrustChain.SyncLastsUntilRegistration | src/lib.rs:1432-1496 | once in sync with no stale write pending, a registry stays as it is until the next registration, under every interleaving |
| TrustOutcomes.NoHandoverCommits | src/lib.rs:1339-1394 | in every reachable state a successor that activates nobody commits |
| TrustOutcomes.StatusChangeCommits | src/lib.rs:1339-1394 | in every reachable state any issuer can be revoked, the active one retired, and every status repeated: the snapshot is accepted and commits |
| TrustOutcomes.ActivationCommits | src/lib.rs:1339-1394 | a future issuer is activated exactly when every active row sorts before it |
| TrustOutcomes.StatusRunRepairsRow | src/lib.rs:1432-1496 | in every reachable state an uninterrupted status run writes the status that the current snapshot signs, and nothing else |
| TrustOutcomes.SignerIsChosenExactly | src/lib.rs:1696-1796 | in every reachable state a signer that reads the current snapshot goes ahead exactly when its issuer is active there, with the usage and inside the window |
| ReplayCache.Cache.Trim | src/store.rs:53-60 | keeps 9,999 rows that no dropped row outranks, or all of them |
| ReplayCache.Cache.Consume | src/store.rs:41-80 | forgets expired rows, trims, and accepts exactly an unknown id |
| ReplayCache.SecondUseMeansCrowding | src/store.rs:41-80 | a second acceptance before expiry means that some prune found 9,999 other rows that do not come after it in the order of expiry and use |
| ReplayCache.CrowdedMeansDropped | src/store.rs:53-60 | 9,999 rows that come before it in the order of expiry and use push a row out, however full ties are broken |
| ReplayCache.CrowdingMeansSecondUse | src/store.rs:41-80 | in every history, once a prune found 9,999 rows before that of an accepted id, its next consumption is accepted |
| ReplayCache.SecondUseIffExpiredOrCrowded | src/store.rs:41-80 | without full ties, a later consumption of an accepted id is accepted exactly when it comes at or after the expiry or some prune in between was crowded |
| ReplayCache.ExpiredRowIsForgotten | src/store.rs:49-52 | from its expiry on an id is accepted again, at its next consumption after any number of others |
| ReplayCache.SecondUseExactly | src/store.rs:41-80 | uncrowded, a later consumption of an accepted id is accepted exactly when it comes at or after the expiry of the first |
| ReplayCache.TokensAreSingleUse | crates/auth-token/src/lib.rs:137-147 | verified at one clock and consumed at a later one, an uncrowded token is accepted a second time exactly when that consumption is delayed to its expiry or beyond |
| ReplayCache.DelayedConsumptionIsAccepted | src/lib.rs:1244-1258 | such a delay of one second is enough |
| ReplayCache.CrowdLetsTokenInTwice | src/store.rs:53-60 | a history of 10,001 consumptions in one second in which every prune lets a token in twice before its expiry |
| Enrollment.Rows.constructor | src/store.rs:1325-1413 | an enrollment opens as a draft with its one event |
| Enrollment.Rows.SubmitEnrollment | src/store.rs:1525-1577 | the two statements have the outcome of the submit batch |
| Enrollment.Rows.BeginEnrollmentReview | src/store.rs:1579-1628 | the two statements have the outcome of the review batch |
| Enrollment.Rows.WriteInformationRequest | src/store.rs:1650-1721 | the three statements have the outcome of the batch in any state a stale read may lead to |
| Enrollment.Rows.RequestEnrollmentInformation | src/store.rs:1631-1724 | run without interruption: refused calls change nothing; others have the outcome of the batch |
| Enrollment.Rows.UpdateEnrollmentInformation | src/store.rs:1415-1523 | update, message and event have the outcome of the batch |
| Enrollment.Rows.AddEnrollmentMessage | src/store.rs:1964-2056 | update, message and event have the outcome of the batch, and the answer says whether it is submitted |
| Enrollment.Rows.WriteRejection | src/store.rs:1745-1786 | the two statements have the outcome of the batch in any state a stale read may lead to |
| Enrollment.Rows.RejectEnrollment | src/store.rs:1726-1790 | run without interruption: refused calls change nothing; others have the outcome of the batch |
| Enrollment.BatchKeepsLogExactly | src/store.rs:1415-1790 | a batch keeps log and state in agreement exactly when no guard keeps its event out |
| Enrollment.LogAgreesExactly | src/store.rs:1325-2056 | over any history log and state agree after every commit exactly when no move meets such a guard |
| Enrollment.StrictClocksKeepLog | src/store.rs:1325-2056 | with strictly increasing timestamps the events fold to the stored state after every commit, by legal moves only |
| Enrollment.SameSecondLosesReview | src/store.rs:1579-1628 | within one second a second round of review is not logged |
| Enrollment.StatesFollowDiagram | src/store.rs:1415-2056 | at any clock the state follows the seven moves of the diagram, and events and messages are only appended |
| Enrollment.StrangersChangeNothing | src/store.rs:1415-1577 | whoever is not the applicant can neither submit nor answer |
| Enrollment.StrictClocksFollowDiagram | src/store.rs:1325-2056 | with strictly increasing timestamps the guarded batches have the state, the events and the messages of the diagram without guards, over every history |
| Approval.Store.ApproveEnrollment | src/store.rs:1792-1962 | creates developer, applicant as owner and audit row exactly for an enrollment in review, and logs the approval in any approved one |
| Approval.Store.AddMember | src/store.rs:360-379 | upserts the account's one row, unless the trigger refuses it; no developer loses its last owner |
| Approval.Store.UpdateMember | src/store.rs:381-399 | updates the row, exactly unless the developer is unknown or the trigger refuses; no developer loses its last owner |
| Approval.UpdateKeepsOwners | migrations/0001_developer_ca.sql:96-104 | an update that the trigger lets through leaves every developer an active owner |
| Approval.RefusedExactly | migrations/0001_developer_ca.sql:96-104 | the trigger refuses an update exactly when it would leave a developer without an active owner |
| Approval.ApplicantBecomesOwner | src/store.rs:1792-1962 | the commit of an approval makes the applicant an active owner of the new developer, exactly when the enrollment is still in review |
| Approval.MembershipsAreForGood | src/store.rs:360-399 | no later upsert, update or approval moves a member row to another account or developer |
| Approval.ApplicantsAreMembers | src/store.rs:1851-1872 | over all histories the account that applied is a member of the developer that the approval created |
| Approval.OneDeveloperPerApproval | src/store.rs:1792-1962 | with reviewers racing on stale reads an approved enrollment created exactly one developer, any other none |
| Approval.EveryDeveloperKeepsAnOwner | src/store.rs:360-399 | every developer keeps an active owner over all later upserts and updates |
| CertificateStatus.ActiveSigner | src/lib.rs:1696-1796 | accepts exactly a verifying snapshot, an issuer authorized now and an agreeing registry row; each of its nine refusals is given exactly when its own condition holds |
| CertificateStatus.Sign | src/certificate.rs:107-141 | the wire form of the requested content, signed over its own message, exactly for acceptable requests that the format has room for |
| CertificateStatus.IssueOnline | src/lib.rs:655-716 | a certificate lasts 60 to 31,536,000 s inside its issuer's window; refused exactly for lack of room or form |
| CertificateStatus.Status | src/lib.rs:1062-1238 | "valid" exactly when everything it asserts holds; each of its nine reasons exactly when that reason applies |
| CertificateStatus.IssuedIsReportedExactly | src/lib.rs:1062-1238 | a certificate issued online is reported valid at any later time exactly while unrevoked, unsuspended and unexpired, with its developer in order and its issuer standing |
| CertificateStatus.SignerMakesIssuerStand | src/lib.rs:1696-1796 | what the signer accepts is enough for the issuer to stand at once |
| CertificateStatus.SyncedIssuerStands | src/lib.rs:1186-1228 | with a verifying snapshot and a registry in sync, the issuer stands exactly when it is active or retired with usage and window |
| CertificateStatus.RevokedIsNeverReported | src/lib.rs:1078-1084 | after a revocation no later read is ever answered "valid" |
| CertificateStatus.RevokedByTheSecondRead | src/lib.rs:1078-1084 | with a certificate row read in any earlier state and a revocation row read after the revocation, the answer is "revoked" |
| CertificateStatus.ValidMeans | src/lib.rs:1091-1237 | an answer of "valid" tells that row and certificate agree field by field and that the registered key verifies it |
| CertificateStatus.StatusesAreToldApart | src/lib.rs:1078-1090 | read at one moment of any history, the answer is "revoked" exactly for the revoked and "suspended" exactly for the suspended |

## Left out

- Routing, HTTP bodies, CORS, caching headers and the public rate limiter: plumbing of the worker runtime.
- Account introspection, service tokens and secret lookup in src/auth.rs: network clients with field comparisons.
- Ed25519 (RFC 8032), SHA-256 (FIPS 180-4), base64 (RFC 4648), JSON and the MCER crate are not part of this model; their laws are assumed, see above.
- Notifications, display names, listings, review queues and developer suspension: single writes without an invariant across calls.
- The legacy developer-creation requests and the command-line root tool.
- The schema rewrites of migrations 0003 to 0005, 0007, 0008 and 0010; constraints, indexes, triggers and the serial seed are taken from the final schema.
- 64-bit saturation and the float binding of SQL numbers: integers are unbounded, and encoders require the machine widths of their fields.
- The etag and token-id columns of snapshots: a second row with an equal etag is a second row of an equal version, which the primary key already refuses; a repeated token id is refused by the replay cache before.
- Columns that no modelled property reads: timestamps of status changes, revocation reasons in prose, metadata of audit rows other than approvals and issues.
- The one-enrollment-per-account guard of migration 0013: a primary key on one table.
- RevocationPublication.PublishedListIsTheTable: the signer's trust checks and the limit on the JSON text are among the failures that may end a run at any step.
- RevocationPublication.BuildRevocationSnapshot: an unreadable reason code is not modelled, because the CHECK of migration 0002 admits only the six codes; an unreadable stored snapshot is not modelled either.
- RevocationStore.Store.SetCertificateSuspension: states the call with nothing between its read and its batch; the batch alone is WriteSuspension, and RevocationPublication interleaves the two.
- IssuanceStore.Store.ClaimCertificateIssue: states the call with nothing between its statements; the statements alone are PruneClaims, InsertClaim and FindByHash, and Issuance interleaves them.
- Issuance.AnswersAreForTheRequest: the limiter, the signer and the validity check only decide whether a run goes on; RateLimiter, TrustChain and CertificateStatus model them. The early eligibility check is left out because the commit repeats it.
- RateLimiter.Limiter.RecordAttempt: states the two statements with nothing between them; CheckSeesFullHistory lets any attempts come between.
- TrustChain.RegistrationCommits: the checks and the batch of one registration are a single step, since the source has no version-collision guard between them like the one for revocations.
- ReplayCache.Cache.Consume: its three statements are a single step.
- Enrollment.Rows.RequestEnrollmentInformation: states the call with nothing between its read and its batch; the batch alone is WriteInformationRequest, and the histories of Enrollment let every batch run at any time.
- Enrollment.Rows.RejectEnrollment: states the call with nothing between its read and its batch; the batch alone is WriteRejection.
- CertificateRequest.SpellingsOfOneKey: trimming removes ASCII whitespace only.
- CertificateRequest.ParseScopes: the order of parsed scopes and the package, scope and capability syntax belong to the MCER crate and are parameters.
- CertificateStatus.Status: unreadable stored JSON is a missing snapshot, which gets the same answer.
