# ToxicJoin verification

A Dafny model of the parts of ToxicJoin that decide whether governed data may leave the system, with proofs of what those parts promise. Each module models one component; the source's in-place algorithms are methods and classes proved against functions, and what the system promises is proved about those functions, for every input, every run and every reachable state.

**Two-phase disclosure ledger** (`Disclosure*.dfy`). `DisclosureTables` gives every transaction on the record, claim and transition tables as a function from tables to tables; the class in `DisclosureLedger` runs the same transactions in place, with their loops and error exits. `DisclosureRuns` interleaves the transactions of any number of callers from an empty ledger, with the pending check and the insert of `claim_commitment` as separate steps, and proves the invariant every run keeps. On it rest the rolling-window budget (`DisclosureTheorems`), verification, tamper evidence, the release journal, one-to-one claims, idempotent replay and the permanent block on legacy history (`DisclosureAudit`), what a caller can verify about a commitment later (`DisclosureVerification`), the gate's answers, rows and errors in terms of the tables (`DisclosureGate`), exactly when each later transaction succeeds and what it leaves behind (`DisclosureLifecycle`), what verification accepts of tables of any origin (`DisclosureTamper`), verification beside concurrent writers (`DisclosureConcurrency`), and the converse of the budget theorem (`DisclosureClock`).

**Limiters** (`SlidingWindow`, `TrafficLimiter`, `AuthFailureLimiter`). The pruning, state-deleting traffic limiter is proved to answer exactly as a naive limiter that forgets nothing; the bounded failure table is proved to count what it still remembers.

**Encodings and scanners** (`Hexadecimal`, `TextEncoding`, `Base64`, `SecretDecodings`, `UrnComponents`, `PercentVariants`, `MarkerScanner`). The Base64 spellings with free pad bits (RFC 4648, sections 3.5, 4 and 5) and hexadecimal text (section 8) are proved exact against an independent decoder, canonical percent-encoding (RFC 3986, sections 2.1 and 2.3) against a normal form, and the quote-aware scanners against declarative slices.

**Governed context** (`Categories`, `KeyOrder`, `Lineage`, `LineageSources`, `CatalogBinding`, `ContextResolver`, `GovernanceFacts`, `GovernanceEvidence`). Missing lineage is followed from the metadata payload through the loader's dictionaries and the resolver's cache to the reported failures; the required governance facts are proved to be exactly the union of what the evidence contributes.

**Agent session** (`AgentSession`). The bounded propose/adapt loop and its hash-linked chain of proposals.

Foreign code appears as function values and parameters. What is assumed of it is always an explicit hypothesis of the lemma that needs it: `CollisionFree` (SHA-256 over the ledger's payloads), `TellsCohortsApart` (the cohort HMAC, for `ReservationCoversOneQuery` only), `ProposalHashesAreDistinct` (SHA-256 over proposals), `Utf8.Strict` and `Utf8.KeepsAscii` (UTF-8), `FaithfulBase64` (`base64.b64decode` on well-formed padded text only) and `StripsOnce` (`str.strip`). Hashes are idealised as injective on what is hashed. That these hypotheses can be met is proved in `DisclosureHypotheses`, `AgentHypotheses` and `TextHypotheses`, with the injective encodings of `SelfDelimitingCodes`. SQL canonicalization, the cohort HMAC, case folding, character classes, digests in names, the planner, the pipeline and the metadata server are arbitrary functions. Clock readings and random identifiers are arguments of the steps that take them. The ledger's times are integers in microseconds, the resolution of `datetime`; the limiters' monotonic clock is `real`.

## Findings

Places where the code promises less than one might expect; each is stated and proved.

- The disclosure budget needs the two clock readings of each evaluation to be in order, and nothing else about the clock (`BudgetHolds`). Any pair that runs backwards breaks any budget over any nonempty window, in a run whose other readings are in order (`BudgetNeedsOrderedReadings`, `BackwardClockBreaksBudget`).
- A claim can be recorded for a record that was aborted between the two transactions of `claim_commitment`. It is inert (`ClaimMayLandAfterAbort`); exactly when it happens is stated for an arbitrary state (`ClaimLandsOnAbortedExactly`).
- `record_failure` raises exactly when `max_tracked_keys` is not positive; the constructor does not check it (`RecordingRaisesExactly`). The failure limiter computes `retry_after` from the first failure of the deque, although the deque can hold more than `max_failures`: waiting suffices exactly when it lasts until the failure `max_failures` from the end has left the window, so the value can be too short (`WaitSufficesExactly`, `RetryAfterMayBeTooShort`). The traffic limiter's is exact (`RetryAfterIsExact`).
- The scanners index the original text with positions found in the lowered text. The authorization scanner raises `IndexError` exactly when lowering lengthened the text so far that a marker starts beyond the original's end (`AuthorizationScanRaisesExactly`; sixteen dotted capital letters do it, `SixteenDottedLettersRaise`). The secret scanner cuts the value right after its marker exactly when every character before the marker lowers to one (`CutIsShifted`, `DottedLetterDropsHead`).
- The docstring of `is_protected_release` (composition.py:97-103) protects lineage of any category that is not public; the code leaves out the unclassified one, and so does the model (`ProtectedExactly`). The docstring of the module (composition.py:3-7) speaks of one protected release per scope, the code of a budget (`GateDecides`).
- Columns are keyed by `dataset.field`, so dotted dataset names can collide. A source is lost exactly where an unclassified column's key is shadowed (`MissingLineageIsKept`, `ShadowedLineageIsLost`), which undotted names rule out; a dotted reference in a plan can replace the reported reason, never the failure (`DottedReferenceHidesReason`, `UnclassifiedNeverPasses`).

## Model

| member | source | states |
|---|---|---|
| DisclosureModels.ScopeHashIdentifiesScope | src/toxicjoin/disclosure/models.py:301-315 | two valid scopes have equal hashes exactly when they are one privacy scope, also when one has no agent |
| DisclosureModels.HeadCommitsToHistory | src/toxicjoin/disclosure/ledger.py:471-492 | two chains of any length whose last records have one content hash are equal record for record |
| DisclosureModels.EarlierHeadMarksPrefix | src/toxicjoin/disclosure/models.py:348-350 | a head hash found inside another chain marks exactly the prefix that ends there |
| DisclosureHypotheses.LedgerHashesExist | src/toxicjoin/disclosure/models.py:361-368 | for every configuration there is a hash that tells all hashed payloads apart, so the theorems that assume one are not empty |
| DisclosureComposition.EvaluateCompositionHistory | src/toxicjoin/disclosure/composition.py:126-194 | the pass with early return equals the first stopping record plus a filtered count over the window |
| DisclosureComposition.AllowedExactlyWithinBudget | src/toxicjoin/disclosure/composition.py:147-194 | allowed exactly when no record is legacy-protected and, for a protected candidate, fewer than the budget fall in the window |
| DisclosureComposition.RaisesExactly | src/toxicjoin/disclosure/composition.py:144-154 | raises exactly for a candidate without true metadata, or on false metadata in the history before any legacy-protected record |
| DisclosureComposition.BindsExactly | src/toxicjoin/disclosure/composition.py:43-60 | binding yields exactly the consistent event that records the offered release under the keyed cohort identity of its canonical SQL |
| DisclosureComposition.ProtectedExactly | src/toxicjoin/disclosure/composition.py:97-111 | a release is protected exactly for an aggregate or lineage that reaches a category other than public and unclassified |
| DisclosureLedger.Ledger.CheckChain | src/toxicjoin/disclosure/ledger.py:485-491 | the loop carrying `previous` accepts exactly the records of this privacy scope that link to their predecessor |
| DisclosureLedger.Ledger.RecordsForScope | src/toxicjoin/disclosure/ledger.py:471-492 | reads the scope's validated, chained audit history or reports an integrity error |
| DisclosureLedger.Ledger.ActiveHistory | src/toxicjoin/disclosure/secure_ledger.py:287-296 | the audit history without aborted records, or the first journal error |
| DisclosureLedger.Ledger.AppendEvent | src/toxicjoin/disclosure/ledger.py:397-469 | one new row, chained to the given history, or tables unchanged |
| DisclosureLedger.Ledger.InsertTransition | src/toxicjoin/disclosure/secure_ledger.py:334-392 | the journal grows by one entry exactly when the foreign key and the insert trigger admit it |
| DisclosureLedger.Ledger.EvaluateAndCommit | src/toxicjoin/disclosure/secure_ledger.py:59-156 | replay, refusal, or an appended PENDING record; any error leaves the tables as they were |
| DisclosureLedger.Ledger.Release | src/toxicjoin/disclosure/secure_ledger.py:115-143 | the branch for a new receipt, rolled back whole on any error |
| DisclosureLedger.Ledger.Append | src/toxicjoin/disclosure/ledger.py:88-122 | the foundation path: existing record, conflict, or one chained record without journal entry |
| DisclosureLedger.Ledger.RequirePending | src/toxicjoin/disclosure/secure_ledger.py:275-285 | succeeds exactly for a matching record whose state is PENDING |
| DisclosureLedger.Ledger.InsertClaim | src/toxicjoin/disclosure/ledger.py:251-307 | at most one claim per record and per authorization, bound to receipt and content |
| DisclosureLedger.Ledger.MatchCommitment | src/toxicjoin/disclosure/ledger.py:213-249 | the record a commitment and a release identify together, or an integrity error |
| DisclosureLedger.Ledger.MatchClaim | src/toxicjoin/disclosure/ledger.py:309-341 | the claim belongs to this authorization and agrees with commitment and record |
| DisclosureLedger.Ledger.MarkReleased | src/toxicjoin/disclosure/secure_ledger.py:186-215 | PENDING with a claim becomes RELEASED, RELEASED stays, anything else is an error |
| DisclosureLedger.Ledger.MarkAborted | src/toxicjoin/disclosure/secure_ledger.py:217-238 | PENDING becomes ABORTED, ABORTED stays, anything else is an error |
| DisclosureLedger.Ledger.VerifyAll | src/toxicjoin/disclosure/secure_ledger.py:250-273 | the number of validated records, or the first integrity error |
| DisclosureLedger.Ledger.CountScopes | src/toxicjoin/disclosure/ledger.py:374-393 | the loop over distinct scopes sums their lengths and stops at the first error |
| DisclosureLedger.Ledger.VerifyAllClaims | src/toxicjoin/disclosure/ledger.py:521-550 | every claim agrees with an existing record |
| DisclosureRuns.StepKeepsInv | src/toxicjoin/disclosure/secure_ledger.py:59-238 | every transaction keeps sound, unique, chained rows, legal journals and one-to-one claims |
| DisclosureRuns.RunKeepsInv | src/toxicjoin/disclosure/secure_ledger.py:59-238 | the invariant holds in every reachable state of every interleaving |
| DisclosureRuns.RunExtends | src/toxicjoin/disclosure/ledger.py:608-643 | records and journal only ever grow at the end, in every run |
| DisclosureTheorems.HistoryReads | src/toxicjoin/disclosure/secure_ledger.py:87-89 | in every reachable state a valid scope reads, and its active history is the audit history without aborted records |
| DisclosureTheorems.EvaluationSplits | src/toxicjoin/disclosure/secure_ledger.py:87-143 | in every reachable state the receipt alone decides between replay and evaluation of the active history |
| DisclosureTheorems.WritesOnlyWithRoom | src/toxicjoin/disclosure/composition.py:176-184 | an evaluation that writes a protected release had room in the window it read |
| DisclosureTheorems.StepKeepsBudget | src/toxicjoin/disclosure/secure_ledger.py:59-238 | every transaction keeps every window of every scope within the budget |
| DisclosureTheorems.BudgetHolds | src/toxicjoin/disclosure/secure_ledger.py:87-143 | in every run, for every scope and instant t, non-aborted protected releases created in (t - window, t] number at most `max_protected_releases` |
| DisclosureTheorems.BudgetCoversEveryRecord | src/toxicjoin/disclosure/secure_ledger.py:87-143 | in runs of the gate alone the bound covers every protected record that was not aborted |
| DisclosureTheorems.GateWritesComposedRows | src/toxicjoin/disclosure/secure_ledger.py:74-86 | the gate writes no record without composition metadata |
| DisclosureClock.ReleaseIsAppended | src/toxicjoin/disclosure/secure_ledger.py:115-143 | with room in the window a release on new identifiers is appended and PENDING |
| DisclosureClock.BackwardClockBreaksBudget | src/toxicjoin/disclosure/ledger.py:411 | for every budget, window and backward pair of readings a run puts one release too many into the window ending at the recording |
| DisclosureClock.BudgetNeedsOrderedReadings | src/toxicjoin/disclosure/composition.py:142 | any backward pair breaks the budget in some run whose other evaluations are governed |
| DisclosureClock.BudgetOfOneAdmitsTwo | src/toxicjoin/disclosure/ledger.py:411 | an instance with a budget of one in ten seconds |
| DisclosureAudit.ScopesPartitionRows | src/toxicjoin/disclosure/ledger.py:366-393 | listing every distinct scope once lists every record once |
| DisclosureAudit.ReachableLedgerVerifies | src/toxicjoin/disclosure/secure_ledger.py:250-273 | every reachable ledger, aborted records included, verifies and counts exactly its records |
| DisclosureAudit.HeadHashFixesScope | src/toxicjoin/disclosure/ledger.py:471-492 | two ledgers, tampered or not, in which a scope reads and ends in one content hash hold one history for it |
| DisclosureAudit.JournalIsLegal | src/toxicjoin/disclosure/secure_ledger.py:298-317 | under every interleaving a record's transitions are empty, P, PR or PA, so line 314 is unreachable, and a journalled release is claimed |
| DisclosureAudit.TerminalStatesStay | src/toxicjoin/disclosure/secure_ledger.py:375-392 | a terminal state never changes in any continuation of any run |
| DisclosureAudit.ClaimsAreOneToOne | src/toxicjoin/disclosure/ledger.py:600-606 | claims map existing records to authorizations one to one |
| DisclosureAudit.ClaimMayLandAfterAbort | src/toxicjoin/disclosure/secure_ledger.py:170-176 | an abort between the two transactions leaves a claim on an aborted record, which can still not be released |
| DisclosureAudit.ClaimLandsOnAbortedExactly | src/toxicjoin/disclosure/ledger.py:262-293 | in any state an insert leaves a claim on an aborted record exactly when it succeeds and the journal already reads ABORTED; when it succeeds; and that the record can then not be released |
| DisclosureAudit.ReplayOfRow | src/toxicjoin/disclosure/secure_ledger.py:90-113 | a recorded receipt never writes: original commitment exactly for the same release under the same keyed cohort identity and no abort, otherwise a conflict |
| DisclosureAudit.ReplayIsIdempotent | src/toxicjoin/disclosure/secure_ledger.py:90-113 | after any further steps an allowed evaluation repeats to its first commitment exactly for the same release with SQL of the same keyed cohort identity, until aborted; otherwise a conflict; nothing is written |
| DisclosureAudit.ReservationCoversOneQuery | src/toxicjoin/disclosure/secure_ledger.py:90-113 | with a keyed hash that tells queries apart, a receipt replays exactly for its own canonical SQL |
| DisclosureAudit.LegacyRowBlocks | src/toxicjoin/disclosure/composition.py:151-166 | a legacy-protected record refuses every new receipt of its scope, at any clock reading |
| DisclosureAudit.LegacyBlockIsPermanent | src/toxicjoin/disclosure/secure_ledger.py:115-127 | no evaluation at any later point of any run changes a ledger for a scope that holds such a record |
| DisclosureAudit.OnlyConflictsAreRaised | src/toxicjoin/disclosure/secure_ledger.py:144-153 | in reachable states an evaluation raises exactly for a conflicting or aborted receipt, never an integrity error |
| DisclosureVerification.ReceiptIsUnique | src/toxicjoin/disclosure/ledger.py:235-239 | a scope's history holds a recorded receipt exactly once |
| DisclosureVerification.UnknownReceipt | src/toxicjoin/disclosure/ledger.py:235-239 | and any other receipt not at all |
| DisclosureVerification.CommitmentMatchesExactly | src/toxicjoin/disclosure/ledger.py:213-249 | a commitment matches a release exactly when it names the row that records that release under that cohort identity, and that record is returned |
| DisclosureVerification.CommittedReleaseMatches | src/toxicjoin/disclosure/ledger.py:213-249 | at any later point of any run the commitment of an allowed release matches exactly that release with SQL of the same keyed cohort identity |
| DisclosureVerification.OnlyClaimantVerifies | src/toxicjoin/disclosure/ledger.py:309-341 | in reachable states exactly the authorization that claimed the record verifies |
| DisclosureGate.BudgetBoundsRows | src/toxicjoin/disclosure/secure_ledger.py:87-143 | the budget as a number of rows: in every governed run, scope and window at most `max_protected_releases` rows expose subjects and are not aborted |
| DisclosureGate.NewRowIsAppended | src/toxicjoin/disclosure/ledger.py:397-469 | the appended row column by column: numbered, bound to its event, chained to the last row of its scope and sealed by its content hash |
| DisclosureGate.StopsAtFirstBlock | src/toxicjoin/disclosure/composition.py:151-166 | the pass stops at the first row of the scope that exposes subjects without metadata |
| DisclosureGate.HistoryCounts | src/toxicjoin/disclosure/composition.py:150-174 | the count of the pass is the number of rows of the scope that expose subjects, lie in the window and are not aborted |
| DisclosureGate.GateDecides | src/toxicjoin/disclosure/secure_ledger.py:115-143 | on a new receipt: allowed exactly without a legacy row and with room in the window; rule and prior count as numbers of rows; one row, one PENDING entry and its commitment, or nothing |
| DisclosureGate.ReplayTells | src/toxicjoin/disclosure/secure_ledger.py:103-113 | what a replay reports: its rule, whether the release exposes subjects, the number of standing rows, and the commitment that names the row |
| DisclosureGate.ErrorsAreExact | src/toxicjoin/disclosure/secure_ledger.py:74-156 | every error of an evaluation, each exactly when it is raised; none writes |
| DisclosureLifecycle.ReleaseIsMarkedExactly | src/toxicjoin/disclosure/secure_ledger.py:186-215 | succeeds exactly for a commitment on record that is unjournalled, released, or pending with a claim; the last becomes PENDING, RELEASED and nothing else changes |
| DisclosureLifecycle.AbortIsMarkedExactly | src/toxicjoin/disclosure/secure_ledger.py:217-238 | succeeds exactly for a commitment on record that is pending or aborted; the first becomes PENDING, ABORTED and nothing else changes |
| DisclosureLifecycle.PendingExactly | src/toxicjoin/disclosure/secure_ledger.py:275-285 | the pending check succeeds exactly for a commitment on record whose only transition is PENDING |
| DisclosureLifecycle.ActiveUnlessAborted | src/toxicjoin/disclosure/secure_ledger.py:287-296 | a record is in the active history of its scope exactly while it is not aborted |
| DisclosureLifecycle.OutcomeIsPermanent | src/toxicjoin/disclosure/secure_ledger.py:186-238 | what was released stays in the active history, and what was aborted stays out of it, at every later point of any run |
| DisclosureLifecycle.ClaimIsInsertedExactly | src/toxicjoin/disclosure/ledger.py:251-307 | each error exactly when it is raised, and otherwise one claim that binds the authorization to the commitment |
| DisclosureLifecycle.ClaimVerifiesExactly | src/toxicjoin/disclosure/ledger.py:309-341 | verifies exactly for a commitment on record whose claim is this authorization's |
| DisclosureLifecycle.AppendsExactly | src/toxicjoin/disclosure/ledger.py:88-122 | a recorded receipt returns its content or conflicts; a new one appends one chained row without journal entry, unless its metadata is false or the identifier taken |
| DisclosureTamper.CountsExactly | src/toxicjoin/disclosure/ledger.py:366-395 | for tables of any origin the scope loop counts all rows exactly when every row is intact and every scope one chain |
| DisclosureTamper.VerifiesExactly | src/toxicjoin/disclosure/secure_ledger.py:250-273 | for tables of any origin verification accepts exactly intact rows, chains, claims and release states, and is an integrity error otherwise |
| DisclosureTamper.GateFailsClosed | src/toxicjoin/disclosure/secure_ledger.py:86-113 | on tables of any origin a decision that reads a broken row, chain, transition sequence or receipt is an integrity error and writes nothing |
| DisclosureTamper.AppendFailsClosed | src/toxicjoin/disclosure/ledger.py:97-118 | likewise a direct append |
| DisclosureTamper.ClaimMatchesExactly | src/toxicjoin/disclosure/ledger.py:309-341 | on tables of any origin an authorization verifies exactly with an intact row and a claim for this authorization, receipt and content |
| DisclosureTamper.SharedRowFixesHistory | src/toxicjoin/disclosure/ledger.py:471-492 | two ledgers that verify and share a row hold the same rows of its scope up to it |
| DisclosureTamper.TamperingIsDetected | src/toxicjoin/disclosure/ledger.py:471-492 | changing, removing, inserting or reordering rows before one that stays makes verification fail |
| DisclosureConcurrency.ConcurrentVerificationSucceeds | src/toxicjoin/disclosure/secure_ledger.py:250-273 | whatever commits between its reads, verification raises no error and returns a number between the records at its start and at its end |
| DisclosureConcurrency.CountsAreBetween | src/toxicjoin/disclosure/ledger.py:366-393 | the scope loop over several connections counts no record twice and misses none there at its start |
| DisclosureConcurrency.ClaimsStandAcross | src/toxicjoin/disclosure/ledger.py:521-550 | a claim read earlier agrees with its record read later |
| DisclosureConcurrency.ReleasesStandAcross | src/toxicjoin/disclosure/secure_ledger.py:255-272 | state, claim and transitions read one after another never look like an unclaimed release |
| DisclosureConcurrency.UnjournalledStays | src/toxicjoin/disclosure/secure_ledger.py:305-307 | a record that has no transition never gets one |
| DisclosureConcurrency.QuietVerificationReadsOneState | src/toxicjoin/disclosure/secure_ledger.py:250-273 | without writers in between it is the verification of one state |
| SlidingWindow.Prune | src/toxicjoin/api/limits.py:351-354 | the popleft loop drops exactly the leading times at or before the threshold |
| SlidingWindow.PruningCountsHistory | src/toxicjoin/api/limits.py:351-354 | what a pruned deque counts is what the full history counts in the window |
| SlidingWindow.OneMoreKeepsBound | src/toxicjoin/api/limits.py:320-332 | admitting one more below the limit keeps every window within the limit |
| TrafficLimiter.PrincipalTrafficLimiter.Acquire | src/toxicjoin/api/limits.py:314-338 | prune, rate check, counted attempt and concurrency check, in the program's order |
| TrafficLimiter.PrincipalTrafficLimiter.Release | src/toxicjoin/api/limits.py:342-349 | the slot is given back, the deque pruned, and an idle empty state deleted |
| TrafficLimiter.RunsAgree | src/toxicjoin/api/limits.py:313-354 | after every run each principal's state agrees with the unpruned history and the open slots |
| TrafficLimiter.RefinesNaiveLimiter | src/toxicjoin/api/limits.py:313-354 | over every sequence of enters and exits it answers as a limiter that keeps every counted attempt for ever |
| TrafficLimiter.RateIsBounded | src/toxicjoin/api/limits.py:320-332 | at most `rate_limit_requests` counted attempts of a principal fall in any window |
| TrafficLimiter.SlotsAreConserved | src/toxicjoin/api/limits.py:316-349 | `active` equals the open slots and stays within the maximum; a principal with open slots has a state, so the clamp never acts |
| TrafficLimiter.RetryAfterIsExact | src/toxicjoin/api/limits.py:320-328 | waiting `retry_after` seconds passes the rate check and no smaller whole number of seconds does |
| TrafficLimiter.IdleStatesAreDeleted | src/toxicjoin/api/limits.py:340-349 | after every run each state held has an open slot or an attempt |
| TrafficLimiter.LeavingForgetsExactly | src/toxicjoin/api/limits.py:340-349 | a caller who leaves is forgotten exactly with no slot open and no attempt in the window |
| AuthFailureLimiter.Limiter.CheckKey | src/toxicjoin/api/limits.py:240-257 | prunes, forgets an idle key, and raises with the remaining seconds at the limit |
| AuthFailureLimiter.Limiter.RecordFailure | src/toxicjoin/api/limits.py:259-268 | makes room when the table is full and the key new, then prunes and appends |
| AuthFailureLimiter.Limiter.EvictStalest | src/toxicjoin/api/limits.py:275-283 | prunes every key, and only if still full drops one whose last failure is earliest |
| AuthFailureLimiter.Limiter.FindStalest | src/toxicjoin/api/limits.py:282 | the `min` over keys with nonempty deques |
| AuthFailureLimiter.RunsTrack | src/toxicjoin/api/limits.py:240-283 | in every run each key's deque is what its failures since its last eviction leave in the window |
| AuthFailureLimiter.CheckCountsFailures | src/toxicjoin/api/limits.py:240-257 | for a key not evicted, `check` raises exactly when its full failure history reaches the limit in the window |
| AuthFailureLimiter.CheckForgetsExactly | src/toxicjoin/api/limits.py:245-251 | after a check its key is held exactly while a failure since its last eviction is in the window |
| AuthFailureLimiter.ForgetsOnlyForRoom | src/toxicjoin/api/limits.py:259-283 | recording forgets another key exactly when its own key is new and the table full: every key without a failure in the window, and one with only if those fill the table |
| AuthFailureLimiter.TableIsBounded | src/toxicjoin/api/limits.py:262-283 | the table never exceeds `max_tracked_keys` when that is at least 1 |
| AuthFailureLimiter.RecordingRaisesExactly | src/toxicjoin/api/limits.py:259-283 | recording fails exactly when `max_tracked_keys` is not positive |
| AuthFailureLimiter.VictimIsLongestQuiet | src/toxicjoin/api/limits.py:282-283 | when the `min` runs every deque is nonempty, and no kept key's last failure is earlier than the victim's |
| AuthFailureLimiter.WaitSufficesExactly | src/toxicjoin/api/limits.py:240-257 | after a refusal, waiting admits the key exactly when the failure `max_failures` from the end has left the window; the least such wait, and exactly when `retry_after` reaches it |
| AuthFailureLimiter.RetryAfterIsLowerBound | src/toxicjoin/api/limits.py:252-257 | before `retry_after` seconds have passed no counted failure has left the window |
| AuthFailureLimiter.RetryAfterMayBeTooShort | src/toxicjoin/api/limits.py:252-257 | a concrete run in which the key is refused again after `retry_after` seconds |
| Base64.EquivalentVariants | src/toxicjoin/agent/datahub_discovery.py:1209-1243 | the loop over the unused bits collects exactly the specified set |
| Base64.DecodesExactlySpellings | src/toxicjoin/agent/datahub_discovery.py:963-988 | sextets decode to given bytes exactly when they spell them up to unused bits |
| Base64.VariantIsSpelling | src/toxicjoin/agent/datahub_discovery.py:1226-1241 | replacing the data letter yields the padded writing of the spelling with those unused bits |
| Base64.VariantsAreExactlySpellings | src/toxicjoin/agent/datahub_discovery.py:1209-1243 | the variants are exactly the fully padded or wholly unpadded texts a pad-bit-ignoring decoder maps to the bytes, and none for no bytes |
| Base64.EncodeDecodes | src/toxicjoin/agent/datahub_discovery.py:1216-1218 | decoding inverts encoding in both alphabets |
| Hexadecimal.HexIsExact | src/toxicjoin/agent/datahub_discovery.py:944-952 | text reads as given bytes exactly when its lower case is the bytes' canonical hexadecimal form |
| Hexadecimal.HexRoundTrips | src/toxicjoin/agent/datahub_discovery.py:1200-1205 | reading inverts writing for every byte string |
| SecretDecodings.CandidateIsSpelling | src/toxicjoin/agent/datahub_discovery.py:963-988 | a candidate decodes to nonempty text t exactly when it is a Base64 spelling of t's UTF-8 bytes |
| SecretDecodings.HexCandidateIsExact | src/toxicjoin/agent/datahub_discovery.py:944-952 | the hexadecimal branch yields exactly the nonempty texts whose bytes the secret spells |
| SecretDecodings.DecodingsAreExact | src/toxicjoin/agent/datahub_discovery.py:937-960 | for every secret: the error exactly when it cannot be encoded, otherwise exactly the other nonempty texts it spells in hexadecimal or either Base64, none beyond 4096 bytes |
| SecretDecodings.SpellingsDecodeBack | src/toxicjoin/agent/datahub_discovery.py:1198-1205 | every Base64 or hexadecimal spelling blocked for a text is decoded back to that text |
| UrnComponents.GrammarKeepsReserved | src/toxicjoin/agent/datahub_discovery.py:45-47 | the three safe sets keep neither `%` nor a URN delimiter |
| UrnComponents.QuotesExactly | src/toxicjoin/agent/datahub_discovery.py:1352-1356 | quoting escapes byte for byte in upper case, except unreserved and safe ASCII characters |
| UrnComponents.UnquoteInvertsQuote | src/toxicjoin/agent/datahub_discovery.py:1336-1356 | percent-decoding inverts percent-encoding for every byte string |
| UrnComponents.RequotingKeepsNormalForm | src/toxicjoin/agent/datahub_discovery.py:1352-1356 | re-encoding the decoded bytes returns the text exactly for safe characters and upper-case escapes of unsafe bytes |
| UrnComponents.AcceptsExactlyEncodings | src/toxicjoin/agent/datahub_discovery.py:1336-1356 | accepted with decoded text t exactly when t is admissible and the component is t's encoding |
| UrnComponents.AcceptsExactlyNormalForms | src/toxicjoin/agent/datahub_discovery.py:1336-1356 | accepted exactly when in normal form and decoding to an admissible name |
| UrnComponents.AcceptedIsUnique | src/toxicjoin/agent/datahub_discovery.py:1336-1356 | two accepted components decode to the same text exactly when they are the same string |
| UrnComponents.MatchesExactlyRenderings | src/toxicjoin/agent/datahub_discovery.py:38-44 | the pattern captures three plain fields exactly where the value is their rendering |
| UrnComponents.AcceptsExactlyEncodedUrns | src/toxicjoin/agent/datahub_discovery.py:1312-1333 | a URN is accepted with three decoded names exactly when it is the rendering of their encodings within the length limit |
| UrnComponents.DatasetUrnsAreExact | src/toxicjoin/agent/datahub_discovery.py:1312-1333 | with the program's own pattern and safe sets: accepted with three names exactly when it is the written-out text of their spellings, of at most 2048 characters |
| PercentVariants.LowerEscapesSpell | src/toxicjoin/agent/datahub_discovery.py:1246-1251 | lowering the escapes of a spelling does not change the bytes it spells |
| PercentVariants.VariantsDecode | src/toxicjoin/agent/datahub_discovery.py:1188-1196 | each percent-encoded spelling the guard blocks decodes to the secret's bytes |
| PercentVariants.VariantsAreExactly | src/toxicjoin/agent/datahub_discovery.py:1188-1196 | the blocked percent-encodings are exactly four: all bytes or all but the unreserved escaped, in upper or lower case |
| MarkerScanner.ExtractMarkedValue | src/toxicjoin/agent/datahub_discovery.py:874-906 | the index loops with quote and escape flags compute the specified value and resume position |
| MarkerScanner.MarkedIsSlice | src/toxicjoin/agent/datahub_discovery.py:874-906 | the value is the trimmed slice up to the first unescaped matching quote, the first delimiter, or the end |
| MarkerScanner.ExtractAuthorizationValue | src/toxicjoin/agent/datahub_discovery.py:841-871 | the loop over the active quote computes the specified value and resume position |
| MarkerScanner.OpenQuoteIsUnclosed | src/toxicjoin/agent/datahub_discovery.py:853-866 | a quote is open exactly when it was opened outside quotes and no unescaped match has followed |
| MarkerScanner.AuthorizationIsSlice | src/toxicjoin/agent/datahub_discovery.py:841-871 | the value is the trimmed slice to the first delimiter outside quotes |
| MarkerScanner.ScanMarker | src/toxicjoin/agent/datahub_discovery.py:683-697 | the search loop terminates and collects the values of exactly the specified visits |
| MarkerScanner.CollectMarkedValues | src/toxicjoin/agent/datahub_discovery.py:679-697 | the union over all markers, each scanned on its own |
| MarkerScanner.ScanAuthorization | src/toxicjoin/agent/datahub_discovery.py:707-740 | the same for authorization markers with their boundary test, or the raised `IndexError` |
| MarkerScanner.VisitsMoveForward | src/toxicjoin/agent/datahub_discovery.py:683-697 | visits are occurrences of the marker with strictly increasing, non-overlapping regions |
| MarkerScanner.EveryOccurrenceIsCovered | src/toxicjoin/agent/datahub_discovery.py:683-733 | every occurrence is examined or starts inside a region an earlier occurrence consumed |
| MarkerScanner.NoOccurrenceIsMissed | src/toxicjoin/agent/datahub_discovery.py:679-697 | the nonempty value at every occurrence outside a consumed region is collected, with the delimiters written out |
| MarkerScanner.CollectedAtOccurrence | src/toxicjoin/agent/datahub_discovery.py:679-697 | every collected value was cut out at an occurrence of one of the markers |
| MarkerScanner.ClosesExactly | src/toxicjoin/agent/datahub_discovery.py:886-894 | a quote closes exactly at a matching character with an even number of backslashes directly before it |
| MarkerScanner.CollectAuthorizationValues | src/toxicjoin/agent/datahub_discovery.py:707-733 | the loop over both authorization markers, ended by the first scan that raises |
| MarkerScanner.NoAuthorizationIsMissed | src/toxicjoin/agent/datahub_discovery.py:712-740 | an authorization marker at the start, after a blank or after one of `=;,&'"([{` has its nonempty value collected, unless such an earlier one consumed it |
| MarkerScanner.AuthorizationAtOccurrence | src/toxicjoin/agent/datahub_discovery.py:712-740 | every collected authorization value was cut at a marker with such a boundary |
| MarkerScanner.AuthorizationScanRaisesExactly | src/toxicjoin/agent/datahub_discovery.py:713-740 | the scan raises exactly when a marker occurs in the lowered text beyond the end of the original |
| MarkerScanner.AuthorizationMarkersNeverOverlap | src/toxicjoin/agent/datahub_discovery.py:105 | occurrences of an authorization marker cannot overlap |
| MarkerScanner.SixteenDottedLettersRaise | src/toxicjoin/agent/datahub_discovery.py:736-740 | after n dotted capital letters an authorization marker makes the scan raise exactly when n is at least 16 |
| MarkerScanner.CutIsShifted | src/toxicjoin/agent/datahub_discovery.py:683-697 | the value is cut as many characters late as lowering lengthened what precedes the marker: not at all exactly when each character lowers to one |
| MarkerScanner.DottedLetterDropsHead | src/toxicjoin/agent/datahub_discovery.py:683-697 | an instance in which the value loses its first character |
| Lineage.NormalizeLineageSources | src/toxicjoin/context/datahub.py:381-445 | the dictionary-building loops return the sources recorded last under each key, in key order |
| Lineage.RecordRelationship | src/toxicjoin/context/datahub.py:392-435 | one relationship adds its unresolved source or one source per column |
| Lineage.RecordColumns | src/toxicjoin/context/datahub.py:413-435 | unmapped or unknown columns become unresolved, the target itself is skipped |
| Lineage.SourcesIncrease | src/toxicjoin/context/datahub.py:445 | sources are listed in strictly increasing key order, so `ColumnContext` never rejects them as duplicates |
| Lineage.MissingLineageIsKept | src/toxicjoin/context/datahub.py:381-445 | without shadowed keys a field has an unclassified source exactly when its payload is truncated, malformed, or names an unmapped, unknown or unclassified other column |
| Lineage.UndottedKeyIsUnique | src/toxicjoin/models.py:81-83 | undotted dataset names make the column key unique |
| Lineage.UndottedNamesShadowNothing | src/toxicjoin/context/datahub.py:425-435 | catalogs without dotted names shadow no key |
| Lineage.ShadowedLineageIsLost | src/toxicjoin/context/datahub.py:425-435 | wherever a key is shadowed there is a payload whose missing lineage leaves no trace |
| LineageSources.SourcesComeFromPayload | src/toxicjoin/context/datahub.py:392-445 | every source stands for a column the payload names, with the category the catalog gives it, or for missing lineage |
| LineageSources.MissingLineageIsListed | src/toxicjoin/context/datahub.py:392-443 | every relationship that cannot be read has its own unresolved source, and a truncated or partly unreadable payload one for the whole |
| LineageSources.NamedColumnsAreListed | src/toxicjoin/context/datahub.py:413-435 | every named column has a source under its key, unless it is a catalog column with the target's key |
| CatalogBinding.BindDataset | src/toxicjoin/context/datahub.py:184-209 | the field loop binds every field, in any order, or reports an invalid payload |
| CatalogBinding.BindLineage | src/toxicjoin/context/datahub.py:184-209 | the dataset loop over a partly rebound catalog returns the same catalog for every order |
| CatalogBinding.ShapeDecidesSources | src/toxicjoin/context/datahub.py:381-445 | a payload's meaning depends on the catalog's columns and categories only |
| CatalogBinding.LoadKeepsMissingLineage | src/toxicjoin/context/datahub.py:184-209 | after a load a field has an unclassified source exactly when its lineage was missing |
| ContextResolver.ResolveMany | src/toxicjoin/context/fixture.py:98-115 | one pass over the shared cache and failures; contexts in key order |
| ContextResolver.MergeRefs | src/toxicjoin/context/fixture.py:157-162 | the last reference with each key, in key order |
| ContextResolver.Resolve | src/toxicjoin/context/fixture.py:68-96 | both passes and the deduplicated failures |
| ContextResolver.FailuresAreExact | src/toxicjoin/context/fixture.py:68-146 | the failures are exactly the wildcard's and those that the catalog gives the first reference with each key |
| ContextResolver.ContextsAreOfFirsts | src/toxicjoin/context/fixture.py:98-115 | both passes list one context per key in key order, which carries what the catalog holds for the first reference with that key |
| ContextResolver.ReasonsAreExact | src/toxicjoin/context/fixture.py:68-146 | with undotted references each reason is reported exactly when the catalog lacks a mentioned dataset or column, or holds it or a source of it unclassified; a wildcard is an unresolved column |
| ContextResolver.UnclassifiedIsReported | src/toxicjoin/context/fixture.py:68-146 | with undotted references UNCLASSIFIED_COLUMN is reported exactly when the plan mentions a catalog column that is unclassified or has an unclassified source |
| ContextResolver.UnclassifiedNeverPasses | src/toxicjoin/context/fixture.py:98-146 | with any references, mentioning an unclassified column always leaves a failure |
| ContextResolver.DottedReferenceHidesReason | src/toxicjoin/context/fixture.py:106-112 | a dotted reference with the same key, resolved first, replaces the reason |
| ContextResolver.MissingLineageIsReported | src/toxicjoin/context/datahub.py:184-209 | a plan mentioning a field with missing lineage reports UNCLASSIFIED_COLUMN after the load |
| GovernanceFacts.AddAll | src/toxicjoin/agent/governance_trust.py:283-292 | `add` in a row: invalid fact, conflict, or the extended dictionary |
| GovernanceFacts.AddDatasets | src/toxicjoin/agent/governance_trust.py:297-307 | each dataset's single claimed subject, or the error for none or several |
| GovernanceFacts.CollectContexts | src/toxicjoin/agent/governance_trust.py:309-317 | the contexts by column, or a conflict exactly when two contexts of one column differ |
| GovernanceFacts.AddSources | src/toxicjoin/agent/governance_trust.py:338-359 | the facts of every lineage edge, or the grounding error |
| GovernanceFacts.AddContext | src/toxicjoin/agent/governance_trust.py:319-359 | the facts of one column and its edges, or the grounding error |
| GovernanceFacts.RequiredFacts | src/toxicjoin/agent/governance_trust.py:277-361 | the whole collection, errors in program order |
| GovernanceFacts.RunIsExact | src/toxicjoin/agent/governance_trust.py:283-292 | a collection succeeds exactly when no step fails, facts are valid and none disagree; it holds exactly the facts added |
| GovernanceFacts.FailsUnlessGrounded | src/toxicjoin/agent/governance_trust.py:297-344 | no step fails exactly when datasets map to one subject and contexts are consistent and grounded |
| GovernanceFacts.CollectsExactlyContributions | src/toxicjoin/agent/governance_trust.py:277-361 | success exactly under those conditions, and then exactly the union of the contributions with strictly increasing unique keys |
| GovernanceFacts.OrderDoesNotMatter | src/toxicjoin/agent/governance_trust.py:277-361 | the outcome, errors included, is the same for any order and repetition of claims, datasets and contexts |
| GovernanceEvidence.TellsExactly | src/toxicjoin/agent/governance_trust.py:294-359 | the contributions are exactly the written-out triples of snapshot, datasets, columns and lineage edges |
| GovernanceEvidence.EvidenceDecides | src/toxicjoin/agent/governance_trust.py:277-361 | success exactly when each dataset has one subject, no column two contexts, all is classified and nothing malformed or contradictory; then exactly those triples |
| GovernanceEvidence.ErrorsAreExplained | src/toxicjoin/agent/governance_trust.py:283-344 | each error names a defect the evidence has |
| AgentSession.BuiltFeedbackIsValid | src/toxicjoin/agent/models.py:250-281 | feedback built from any verdict passes its own validation |
| AgentSession.GoalIsStripped | src/toxicjoin/agent/models.py:219-227 | a goal is the stripped text with its hash, and is refused exactly when that has no or more than 8192 characters |
| AgentSession.FeedbackTellsVerdict | src/toxicjoin/agent/runtime.py:314-319 | the planner is told the verdict and the final reasons if there are any, else the initial ones, each once and in order |
| AgentSession.ProposesExactly | src/toxicjoin/agent/governed.py:97-118 | for any input: proposes the planner's draft when goal, context, draft, SQL and surface pass, else the error of the first that does not |
| AgentSession.AdaptsExactly | src/toxicjoin/agent/governed.py:120-163 | the same for adapting, with the checks of the previous proposal, the feedback and their bindings |
| AgentSession.AdaptsUnlessReplyFails | src/toxicjoin/agent/governed.py:120-163 | inside a session adapting succeeds exactly for a draft within limits whose SQL reads discovered datasets and fields only, and links to the previous proposal and its feedback |
| AgentSession.Run | src/toxicjoin/agent/runtime.py:288-335 | the attempt loop reports the specified attempts, or the error that ended them |
| AgentSession.SessionIsChain | src/toxicjoin/agent/runtime.py:288-335 | 1 to `max_attempts` linked attempts, each the planner's draft inside the discovered surface, only the last possibly ALLOW; ends early only for the goal or with the error of the first check a reply fails |
| AgentSession.ReportTellsOutcome | src/toxicjoin/agent/runtime.py:295-335 | attempt i reports what was proposed and the verdict on it, `succeeded` holds exactly when the last is ALLOW, otherwise the budget is spent |
| AgentSession.ValidPlannerCompletes | src/toxicjoin/agent/runtime.py:288-335 | with a planner whose drafts are acceptable every session reports |
| AgentHypotheses.ProposalHashesExist | src/toxicjoin/agent/models.py:296-299 | likewise for proposals |
| AgentSession.LastProposalFixesChain | src/toxicjoin/agent/governed.py:166-207 | two chains whose last proposals have one hash are equal |

## Left out

- SQLite itself, file permissions, key files, schema versions and symlink checks: only table contents, uniqueness, triggers and transaction atomicity are modelled.
- JSON payloads of ledger rows are kept as values; that serializing and validating a record returns it unchanged is not modelled.
- `compute_semantic_sha256` and the canonical-order validators of semantic releases: a release carries its hash as a field.
- Patterns of record and receipt identifiers and of hashes; identifiers are arbitrary strings and a taken record identifier is an error path.
- Base-class `evaluate_and_commit`, `release_state`, `read_receipt` and `list_for_scope`: overridden, or one-line reads of what is modelled.
- DisclosureLedger.Ledger.VerifyAll: the method reads one state; the program's successive connections, with writers in between, are modelled as values in `DisclosureConcurrency`.
- DisclosureTheorems.BudgetHolds: counts releases made through the gate; a direct `append` with composition metadata bypasses the budget by design and is excluded, legacy appends are included and block their scope.
- DisclosureVerification.CommittedReleaseMatches: equality of keyed cohort identities, not of SQL texts; that the HMAC tells canonical queries apart is a hypothesis of `ReservationCoversOneQuery` alone.
- Rounding of the limiters' floating-point clock readings, and of `window_seconds` to microseconds; each limiter call is one atomic step with nondecreasing readings.
- AuthFailureLimiter.RetryAfterIsLowerBound: only a lower bound, because the code's value is one; the exact condition is `WaitSufficesExactly`.
- `str.lower`, NFKC normalization, `urlsplit`, `parse_qsl` and the guard's registries of values: the scanners take the lowered text as given (`MarkerScanner.CutIsShifted` models it character by character, which leaves out the final sigma), and what is done with a collected value afterwards is not modelled.
- The parameter loop of `_register_authorization_parameter_values`.
- Reading tags, glossary terms, owners and entity URNs out of metadata payloads, the flagship lineage check and the snapshot's freshness: payloads arrive parsed.
- Lineage.NormalizeLineageSources: the metadata server is a function of dataset and column, each asked once per load.
- Everything in `bind` after the required facts: evidence resolution, clock sampling and hashing of the binding.
- Agent proposal and feedback fields that are constant in a session (schema versions, PPMC and CPCC references), hash patterns, and exceptions of the pipeline.
- `pipeline.py`, the SQL analyser, policy engine, rewriter and verifier, `auth.py`, the HTTP application and middlewares, the refresher thread, scripts, benchmarks, demo data and the web interface.
