# Financial boundary, operator control and codecs: a Dafny model

This project models the parts of the platform whose correctness lives in whole runs rather than in one branch, and
proves what they promise: the financial event pipeline (a leased outbox and an exactly-once inbox), sequenced
projections with snapshot recovery, the maker/checker halt authority, the financial service client with its circuit
breaker, operator freezes, halts, holds and statements, the webhook delivery budget, the reconciliation engine, and
three string codecs.

`dafny verify dfyconfig.toml` checks the whole project.

| file | component | form |
|---|---|---|
| `Values.dfy`, `Text.dfy`, `Ordering.dfy` | JSON trees and paths; replacing, splitting, numerals; sorting | functions, lemmas |
| `Payloads.dfy` | the payload contract of events | functions, lemmas |
| `Projection.dfy` | projection cursors and snapshots | class `ProjectionStore`, runs over an authoritative log |
| `Inbox.dfy` | the inbox and provider identities | class `EventInbox`, interleaved workers |
| `Outbox.dfy` | the leased outbox | class `OutboxStore`, runs with a claim history |
| `Pipeline.dfy` | outbox and inbox joined | runs of both, end to end; the delivering step between them is the model's own, since the repository holds no publisher of financial rows |
| `Halts.dfy` | the halt lattice | class `HaltAuthority`, interleaved workers with locks |
| `Breaker.dfy`, `Client.dfy` | circuit breaker, bounded attempts | class `CircuitBreaker`, attempt loop |
| `WebhookBudget.dfy` | delivery attempts and manual retries | class `WebhookDelivery`, runs |
| `OperatorControl.dfy`, `OperatorLaws.dfy`, `Targets.dfy`, `Operations.dfy` | freezes, halts, holds, requests; statements, cases, jobs and the six operational checks | classes `OperatorStore`, `OperationsStore`, runs |
| `Evidence.dfy`, `ViolationLaws.dfy`, `Reconciliation.dfy`, `Reports.dfy`, `Permutations.dfy`, `OperationOrder.dfy`, `Records.dfy` | the reconciliation engine | declarative predicates, dictionary loops proved against them |
| `JsonPointer.dfy`, `OpaqueCursor.dfy`, `Labels.dfy` | pointer resolution, opaque cursors, label unescaping | functions, a token loop, round trips |

Each stateful component is written three times over. A class holds the fields that the source updates in place, and
its methods follow the source branch by branch. A function of the old state says what each method does. A run of such
steps, starting from the empty tables and interleaving any callers, is what the theorems are about.

What is safe is stated beside what is granted: for every operation the theorems say both what it never does and
exactly when it succeeds, with the names, bounds, roles, statuses and fields of the source written out.

Where a natural property is false of the code, the code is kept, a counterexample is given and the condition under
which the property does hold is proved:

- Redelivering an event that the projection already holds is not always DUPLICATE or STALE. A snapshot clears the last
  event id, so the event conflicts if and only if a snapshot installed its sequence and the cursor still stands there
  (`ConflictIffSnapshotSequence`, `RedeliveryAfterSnapshotConflicts`).
- The operations a tenant may perform never grow back whatever the clock does. "At most two approvals" holds when each
  approval comes after its tenant's earlier ones by (time, id), and a third one is granted exactly when the second does
  not (`AtMostTwoApprovals`, `ThirdApprovalIffOutOfOrder`, `TiedTimesAdmitThirdApproval`).
- Claims of one outbox row are a lease apart in every run in which no claim reads the clock earlier than a release
  committed before it. The source reads the clock before it opens the transaction, and for every pair of readings in the
  wrong order, and every lease, there is a run that breaks the spacing (`RunIsSafe`, `StaleReadingBreaksSpacing`,
  `SpacingIffClaimsReadAfterReleases`). The status, stamp and attempts columns agree on every run (`ColumnsFollowStatus`).
- A committed event is answered True at most once, and not at all when its worker crashes between its commit and its
  return (`TrueAtMostOnce`, `CrashLosesTheReturn`).
- A published row has had its effect exactly once, at every moment of a run, if and only if every mark that takes effect
  is of an event that the inbox has recorded by then. Marking itself does not ask for that
  (`PublishedOnceIffMarksConfirmed`, `MarkedWithoutDelivery`).
- The scan of a payload goes into dictionaries and lists only, and the JSON library writes tuples as well. A payload is
  accepted exactly when no denied key can be reached without going through a tuple, and what comes back is clean, and can
  be hashed, exactly when there is none anywhere (`AcceptedIffNothingExposed`, `ResultCleanIffNothingDenied`,
  `RecanonicalIffClean`, `TupleHidesDeniedKey`).
- A FULL freeze can be lowered to PARTIAL by freezing again, after which mutations outside the four named kinds pass
  with no release (`FreezeEndsOnlyByProperRelease`, `RefreezeLowersFullFreeze`).
- The two timeouts of an attempt can overrun the remaining time, exactly in its last two milliseconds and by less than
  0.002 s (`TimeoutsOverrunIff`). The raise after the attempt loop is reachable only with a negative retry count.
- Every send is answered to the breaker unless it leaves by an exception that the client does not catch. A half-open
  probe lost that way shuts everyone out until some other outcome arrives (`RequestAttempts`, `ProbeHeldUntilOutcome`).
- Unescaping a metric label gives the label back exactly when it holds no NUL (`LabelRoundTripIff`).
- Pointers with a tilde that escapes nothing are not pointers of RFC 6901, and are resolved all the same
  (`UnpairedTildeResolves`); a fragment resolves exactly when it points to a node token by token
  (`ResolvesIffPointsTo`).
- The order of a compared section of evidence never matters if and only if rows that share a reference agree on the
  compared fields (`OrderNeverMattersIff`, `OrderMattersWithRepeats`). The order of operations never matters if and only
  if those that share a reference are alike in all that is read of them, or no order can be compared at all
  (`OrderNeverTellsIff`). Both conditions together keep the whole report (`PermutationKeepsReport`).
- `compare_records` keys rows by the value of the reference and the comparison of a domain by its spelling, so 1 and 1.0
  divide them even on duplicate-free inputs (`EqualValuesSpelledApart`, `OneAndOnePointZero`), as does an empty
  reference (`EmptyReferenceRaisesInDomain`). The exact condition on the references is proved for all inputs
  (`AgreeIffCoherent`, `CoherentIffKeysMatchAcross`).

## Model

| member | source | states |
|---|---|---|
| `Payloads.AcceptedIffNothingExposed` | FX/financial_boundary/eventing.py:42-60 | whatever lower-casing does: a payload is accepted if and only if it is a dictionary, every value at any depth can be written as JSON, and no dictionary reached without going through a tuple has a denied key |
| `Payloads.ResultCleanIffNothingDenied` | FX/financial_boundary/eventing.py:46-61 | what comes back has no denied key at any depth if and only if the payload had none anywhere, tuples included |
| `Payloads.RecanonicalIffClean` | FX/financial_boundary/eventing.py:88-93 | canonicalising the result again, as its hash does, gives it back if and only if it is clean, and raises otherwise |
| `Payloads.TupleHidesDeniedKey` | FX/financial_boundary/eventing.py:46-55 | for every denied key: inside a tuple it is accepted, and the second pass raises |
| `Payloads.PlainAcceptedIff` | FX/financial_boundary/eventing.py:21-50 | a dictionary of plain values is accepted if and only if no key of it, lower-cased, is one of the ten names, written out |
| `Payloads.DeniedIffNamed` | FX/financial_boundary/eventing.py:21-24 | the denied keys are the ten names |
| `Projection.ProjectionStore.ApplyProjectionEvent` | FX/financial_boundary/realtime.py:73-103 | outcome and whole new table, including the row that a duplicate, stale or early event creates and the rollback on a conflict or reducer error |
| `Projection.ProjectionStore.ReplaceProjectionFromSnapshot` | FX/financial_boundary/realtime.py:106-137 | outcome and whole new table; a malformed or regressing snapshot changes nothing |
| `Projection.StepKeepsConsistent` | FX/financial_boundary/realtime.py:83-137 | one honest delivery or snapshot, of any scope, keeps every cursor equal to the fold of its own log |
| `Projection.ProjectionIsFoldOfLog` | FX/financial_boundary/realtime.py:73-137 | for every schedule of duplicated, reordered or lost events and of snapshots that are true of the scope they name themselves, wherever they are sent: each projection is the canonicalised fold of exactly the first `last_sequence` entries of its own scope, with the digest and last event id to match |
| `Projection.CursorsNeverRegress` | FX/financial_boundary/realtime.py:83-137 | along any schedule, honest or not, `last_sequence` and `snapshot_version` never decrease and no row disappears |
| `Projection.ScopesAreIsolated` | FX/financial_boundary/realtime.py:78-82 | an operation changes no cursor of another tenant, subject or topic |
| `Projection.OutcomeReportsCursor` | FX/financial_boundary/realtime.py:83-103 | a raise changes nothing; a result names the new position and the entry that is missing; each status is given exactly where it is true of the log; the next entry fails exactly with its reducer or with what the reducer returns |
| `Projection.SnapshotInstalledIff` | FX/financial_boundary/realtime.py:109-137 | for every table: a snapshot is installed if and only if it names the scope's tenant and subject, the topic is one of the four, its sequence and version are integers not below the cursor's and its projection is accepted; the cursor then holds exactly the snapshot, and otherwise nothing changes |
| `Projection.AppliedCursor` | FX/financial_boundary/realtime.py:95-103 | the next entry replaces projection, hash, sequence and event id of its cursor, and nothing else |
| `Projection.UnknownScopeStartsEmpty` | FX/financial_boundary/realtime.py:78-82 | a scope without a row starts at sequence 0 with an empty projection |
| `Projection.GapNamesSnapshotEndpoint` | FX/financial_boundary/realtime.py:17-22 | a gap names the topic's snapshot endpoint |
| `Projection.ScheduleConverges` | FX/financial_boundary/realtime.py:83-103 | from any reachable cursor at k, a schedule that contains entries k+1..n as a subsequence ends at n or beyond, with the full fold when n is the end of the log |
| `Projection.ConflictIffSnapshotSequence` | FX/financial_boundary/realtime.py:84-87 | with an honest source a delivery conflicts if and only if a snapshot installed its sequence and the cursor still stands there |
| `Projection.RedeliveryAfterSnapshotConflicts` | FX/financial_boundary/realtime.py:129 | concrete run: the same event is DUPLICATE before and a conflict after a snapshot at its sequence |
| `Inbox.EventInbox.ConsumeFinancialEvent` | FX/financial_boundary/eventing.py:105-125 | reply and whole new state: the row and the handler's effect appear together or not at all |
| `Inbox.ExactlyOneEffectPerRow` | FX/financial_boundary/eventing.py:105-125 | over every interleaving of insert, handler, commit, return, lookup and crash steps, the committed effects of an event id number 1 exactly when its row exists and 0 otherwise; each is accounted for by one call, which returned True, has yet to, or crashed between its commit and its return; a recorded False or conflict is true of the committed row |
| `Inbox.TrueAtMostOnce` | FX/financial_boundary/eventing.py:108-114 | True is returned at most once for an event id and never without its effect; it has been returned if and only if the event is committed, no call is about to return it and none crashed in between |
| `Inbox.CrashLosesTheReturn` | FX/financial_boundary/eventing.py:108-114 | from every state in which a worker is about to commit: after a commit and a crash the row and the effect are there, nobody was told True, and a redelivery is told False |
| `Inbox.WorkerReachesCommit` | FX/financial_boundary/eventing.py:107-113 | three steps lead to such a state |
| `Inbox.ReplyIff` | FX/financial_boundary/eventing.py:105-125 | True exactly for a new event whose handler succeeds, False exactly for a recorded one of the same type, tenant and payload hash, a conflict for any other recorded one |
| `Inbox.NewEventIsConsumed` | FX/financial_boundary/eventing.py:107-114 | from any state a worker that meets no one else takes a new event to its row, its effect and its True |
| `Inbox.FailedHandlerLeavesNothing` | FX/financial_boundary/eventing.py:113-118 | a failed handler leaves no row and no effect |
| `Inbox.RecordedEventIsLookedUp` | FX/financial_boundary/eventing.py:115-125 | a recorded event is refused by its key and answered from its row |
| `Inbox.FalseMeansSameEventCommitted` | FX/financial_boundary/eventing.py:115-125 | with a collision-free hash, False is returned only for an event whose whole type, tenant and payload were committed |
| `Inbox.CallsAreAtomic` | FX/financial_boundary/eventing.py:107-125 | every interleaved call behaves as if the whole operation ran at one instant: at its commit, where alone anything is written, if it gets there, and at the step that answers it otherwise; a call that returns True has its own event among the effects |
| `Inbox.IdentityIsInjective` | FX/financial_boundary/webhooks.py:41-68 | distinct (provider, event id) pairs have distinct identity texts, because a provider id holds no colon |
| `Inbox.ColonInProviderCollides` | FX/financial_boundary/webhooks.py:41-68 | without the provider rule two pairs would share an identity |
| `Inbox.IdentityText` | FX/financial_boundary/webhooks.py:41-68 | the text of an identity and the bounds of a provider id |
| `Inbox.WebhookEffectsAreDistinct` | FX/financial_boundary/webhooks.py:68-83 | when all calls come from verified webhooks, no two committed effects come from one provider event, and False is returned only for a provider event that was committed |
| `Outbox.OutboxStore.EnqueueFinancialEvent` | FX/financial_boundary/eventing.py:96-102 | a new PENDING row due at once, or nothing when the key is taken |
| `Outbox.OutboxStore.ClaimOutboxBatch` | FX/financial_boundary/eventing.py:146-161 | outside the bounds nothing happens; otherwise exactly an oldest batch of unlocked due rows is leased and counted, and no other row changes |
| `Outbox.SelectOldest` | FX/financial_boundary/eventing.py:151-155 | distinct, in order of creation, nothing left out that is older, and full unless the eligible rows ran out |
| `Outbox.OutboxStore.ReleaseExpiredClaims` | FX/financial_boundary/eventing.py:164-168 | exactly the expired leases return to PENDING, and their number is returned |
| `Outbox.OutboxStore.MarkOutboxPublished` | FX/financial_boundary/eventing.py:171-177 | a row is published exactly when it is IN_FLIGHT, whoever asks |
| `Outbox.StepsByColumn` | FX/financial_boundary/eventing.py:96-177 | what each step writes to each column, with leases in seconds, and that nothing else changes |
| `Outbox.ClaimBounds` | FX/financial_boundary/eventing.py:147-148 | a batch of 1 to 500 rows and a lease of 1 to 300 seconds |
| `Outbox.ColumnsFollowStatus` | FX/financial_boundary/eventing.py:146-177 | over every run, whatever its clock readings: IN_FLIGHT iff leased, PUBLISHED iff stamped, `attempts` equals the number of claims |
| `Outbox.RunIsSafe` | FX/financial_boundary/eventing.py:146-177 | the same, and, when no claim reads the clock earlier than a release committed before it, claims of one row are at least the earlier lease apart |
| `Outbox.PublishedIsAbsorbing` | FX/financial_boundary/eventing.py:164-177 | a published row is never changed again, with no assumption on the clock |
| `Outbox.AttemptsAreBoundedByTime` | FX/financial_boundary/eventing.py:146-161 | under that condition, attempts less one never exceed the seconds between the first and the latest claim |
| `Outbox.StaleReadingBreaksSpacing` | FX/financial_boundary/eventing.py:149-168 | for every claim reading earlier than a release reading, and every lease, a feasible run whose claims are too close |
| `Outbox.SpacingIffClaimsReadAfterReleases` | FX/financial_boundary/eventing.py:149-168 | for any two readings: all feasible runs within them space their claims if and only if the claim's reading is not the earlier one |
| `Outbox.ClaimDrainsAhead` | FX/financial_boundary/eventing.py:151-160 | a claim that passes a due row over removes a full batch of rows ahead of it |
| `Outbox.ClaimedWithinBound` | FX/financial_boundary/eventing.py:96-161 | in every run, a pending row with k other eligible rows not younger than it is claimed, once, within floor((k + late)/limit) + 1 claim calls with no release in between, whatever younger rows arrive; late counts rows that arrive in between with an older stamp |
| `Outbox.RunIsDueAtOnce` | FX/financial_boundary/eventing.py:99-102 | in every run whose enqueues stamp the due time no later than the creation time, every row is due from its creation on |
| `Outbox.AheadIsEligible` | FX/financial_boundary/eventing.py:151-155 | in such a table the k rows ahead of a row are exactly the other eligible rows not younger than it |
| `Pipeline.EffectAtMostOnce` | FX/financial_boundary/eventing.py:96-177 | however often a row is claimed, released and delivered, concurrently and with crashes, its effect is committed at most once, only after a claim, and with that row's whole envelope |
| `Pipeline.AcknowledgedExactlyOnce` | FX/financial_boundary/eventing.py:105-125 | a row of which a delivery returned True or False has had its effect exactly once |
| `Pipeline.PublishedOnceIffMarksConfirmed` | FX/financial_boundary/eventing.py:105-177 | for every run: at every moment each published row has had its effect exactly once if and only if each mark that finds its row IN_FLIGHT is of an event that the inbox has recorded |
| `Pipeline.PublishedExactlyOnce` | FX/financial_boundary/eventing.py:105-177 | in particular when rows are marked only after a delivery of them returned |
| `Pipeline.MarkedWithoutDelivery` | FX/financial_boundary/eventing.py:171-177 | concrete run: marking asks only for IN_FLIGHT, so a row can be published with no effect |
| `Halts.Latest` | FX/financial_boundary/halts.py:56-64 | the tenant's greatest approval by time and then id, or none exactly when it has none |
| `Halts.HaltAuthority.RequestFinancialHalt` | FX/financial_boundary/halts.py:76-99 | accepted exactly for a permitted maker, a halting state and a reason code of the safe pattern; only then is the row added |
| `Halts.HaltAuthority.ApproveFinancialHalt` | FX/financial_boundary/halts.py:108-136 | reply and whole new state for every branch |
| `Halts.ReducingIsMoreSevere` | FX/financial_boundary/halts.py:19-26 | a transition is permitted exactly when it climbs one of three severity levels |
| `Halts.AppendTakesEffectIffGreatest` | FX/financial_boundary/halts.py:56-64 | an approval moves its own tenant exactly when it is the greatest by (time, id), and no other tenant |
| `Halts.StepKeepsSafe` | FX/financial_boundary/halts.py:102-136 | every row-lock, check, tenant-lock, read, insert, commit or abort step keeps every value that another worker has read valid under its locks |
| `Halts.RunIsSafe` | FX/financial_boundary/halts.py:102-136 | on every interleaving no approval is by its maker and no request is approved twice |
| `Halts.HaltedStaysHalted` | FX/financial_boundary/halts.py:102-136 | along every interleaving, whatever the clock does, a tenant's allowed operations only shrink |
| `Halts.ApprovalsAreAtomic` | FX/financial_boundary/halts.py:108-136 | each call whose transaction ends in a reply replies and writes as if it had run alone at that instant, with its own roles at the start and as a manager once past the role check; an abort writes nothing |
| `Halts.ReapprovalReturnsStored` | FX/financial_boundary/halts.py:117-119 | approving an approved request again returns the stored approval and changes nothing |
| `Halts.AtMostTwoApprovals` | FX/financial_boundary/halts.py:120-129 | when each approval comes after its tenant's earlier ones by (time, id), a tenant never gets more than two on any interleaving |
| `Halts.ThirdApprovalIffOutOfOrder` | FX/financial_boundary/halts.py:56-129 | for all rows: after a second reducing approval a full halt is granted as a third if and only if the second does not come after the first |
| `Halts.TiedTimesAdmitThirdApproval` | FX/financial_boundary/halts.py:56-64 | concrete rows: with tied times and a smaller id the second approval has no effect and a third is accepted |
| `Halts.LatestIsGreatest` | FX/financial_boundary/halts.py:58-64 | the current state is that of the approval with the greatest time, and the greatest id among those |
| `Halts.WhatEachStateAllows` | FX/financial_boundary/halts.py:19-26 | which of the five operations each state allows |
| `Halts.NewTenantIsUnrestricted` | FX/financial_boundary/halts.py:64 | a tenant without approvals may do everything, and any halt of it is granted to a manager other than its maker |
| `Halts.ReplyIff` | FX/financial_boundary/halts.py:111-129 | each reply exactly where it is due; an approval is created if and only if a manager other than the maker asks, the request is known and unapproved, and it takes an operation away and adds none |
| `Halts.SubmittedIff` | FX/financial_boundary/halts.py:79-92 | a request is stored if and only if an operator or manager asks for a halt with a safe reason code |
| `Halts.FirstApprovalIsGranted` | FX/financial_boundary/halts.py:76-136 | the run of submit, begin, check, lock, read, insert and commit from the empty tables ends in the stored approval, gives every lock back and leaves exactly the operations of the proposed state |
| `Halts.ReasonCodes` | FX/financial_boundary/halts.py:84 | the bounds of the reason code pattern |
| `Breaker.CircuitBreaker.BeforeRequest` | FX/financial_client/client.py:76-83 | admission and new fields; a half-open circuit hands out one probe |
| `Breaker.CircuitBreaker.Succeed` | FX/financial_client/client.py:85-88 | the initial fields |
| `Breaker.CircuitBreaker.Fail` | FX/financial_client/client.py:90-97 | the count, the new stamp when half-open or at the threshold, and the probe returned |
| `Breaker.OpensAtThreshold` | FX/financial_client/client.py:76-97 | in every run the circuit is open iff the failures since the last success reach the threshold, and a probe is out only while it is open |
| `Breaker.AdmittedIff` | FX/financial_client/client.py:64-97 | in every run a request is admitted if and only if fewer failures than the threshold were reported since the last success, or the recovery time has passed since the last failure and no request was admitted since it |
| `Breaker.HealthyIsAdmitted` | FX/financial_client/client.py:76-83 | a breaker that has met no failure admits every request |
| `Breaker.AdmissionsAreApart` | FX/financial_client/client.py:64-97 | while the circuit stays tripped, with late outcomes of older requests included, any two admissions are at least the recovery time apart |
| `Breaker.TrippedAdmissionRate` | FX/financial_client/client.py:64-97 | any stretch of a tripped period that lasts T admits at most 1 + T / recovery requests |
| `Breaker.ProbeHeldUntilOutcome` | FX/financial_client/client.py:76-97 | while a probe is out and no outcome arrives, nothing is admitted, however much time passes |
| `Client.TimeoutsOverrunIff` | FX/financial_client/client.py:166-172 | the exact condition under which the two timeouts exceed the remaining time, and the 0.002 s bound |
| `Client.AttemptEndsInTime` | FX/financial_client/client.py:166-172 | an attempt whose transport honours its timeouts ends less than 0.002 s after the deadline |
| `Client.TimeoutsAreGreatest` | FX/financial_client/client.py:170-171 | the timeouts are the greatest within the configured ones, half of what remains and the rest of it, or a millisecond |
| `Client.HealthyIff` | FX/financial_client/client.py:231-239 | the breaker is told of a success exactly for an answer outside 500, 502, 503 and 504 or with a disabled feature |
| `Client.VerdictIff` | FX/financial_client/client.py:215-242 | what the caller is told of each last send |
| `Client.SafeCodes` | FX/financial_client/client.py:142-155 | which error codes are renamed, passed on and hidden |
| `Client.Decide` | FX/financial_client/client.py:215-242 | retried exactly when a later attempt remains and the failure is retryable in time; otherwise the verdict on that reply |
| `Client.RequestAttempts` | FX/financial_client/client.py:204-243 | for every transport, with exits that the client does not catch, and every interference by other requests on the shared breaker: at most 1 + retry_count sends for reads and one for mutations, each but the last a retryable failure; the end in time; one admission and then one matching outcome per send, except for a send that escapes; the result the verdict on the last send; the final raise reached iff the allowance is not positive |
| `WebhookBudget.WebhookDelivery.Deliver` | FX/notifications/tasks.py:26-70 | whole new row for every branch, and whether an exception is handed back |
| `WebhookBudget.WebhookDelivery.Retry` | FX/notifications/views.py:421-434 | whole new row and reply |
| `WebhookBudget.RunStaysWithinBudget` | FX/notifications/tasks.py:26-70 | every run of duplicate deliveries and retries keeps 0 <= limit - attempts <= 5 and limit <= 32767; a row still to be sent has an attempt left, so the first dead-letter branch is unreachable; committed sends equal attempts and are at most 5 * (1 + retries) |
| `WebhookBudget.SuccessIsFinal` | FX/notifications/tasks.py:26-28 | in every run S is absorbing and neither the limit nor the attempts fall |
| `WebhookBudget.DeadLettersWhenBudgetIsSpent` | FX/notifications/tasks.py:49-69 | a receiver that keeps failing, by exception or by an answer outside 200 to 299, is dead-lettered after exactly the attempts in hand, never before |
| `WebhookBudget.DeliveryComesTo` | FX/notifications/tasks.py:26-70 | for every row: an answer from 200 to 299 succeeds; an exhausted row or an inactive subscription is dead; any other failure uses up an attempt |
| `WebhookBudget.RetryComesTo` | FX/notifications/views.py:421-434 | accepted if and only if the row has failed or is dead, its present version is quoted and the ceiling is not reached; then five attempts are in hand, or as many as the ceiling leaves |
| `WebhookBudget.StepCounts` | FX/notifications/tasks.py:49-70 | a run counts exactly the committed sends and the accepted retries |
| `WebhookBudget.StartsWithFive` | FX/notifications/models.py:158 | a delivery starts pending with five attempts |
| `OperatorControl.OperatorStore.AssertSensitiveMutationAllowed` | FX/operations/services.py:428-444 | the verdict for every mutation, halt and freeze level |
| `OperatorControl.OperatorStore.FreezeAccount` | FX/operations/views.py:605-658 | the active freeze is re-levelled or a new one added; nothing for another tenant's account or another level |
| `OperatorControl.OperatorStore.StopTrading` | FX/operations/views.py:1253-1291 | refused without a reason; otherwise one active halt per tenant, with its reason |
| `OperatorControl.OperatorStore.PlaceHold` | FX/operations/views.py:1035-1072 | one more active hold, for an account of the tenant |
| `OperatorControl.OperatorStore.CreateRequest` | FX/operations/views.py:981-1020 | a PENDING request with the target cut to 128 and the reason to 500 characters, which expires in an hour, for a requester whose role the policy allows and who gives a reason |
| `OperatorControl.OperatorStore.ApproveOperatorRequest` | FX/operations/services.py:595-628 | error or new tables for every branch |
| `OperatorControl.OperatorStore.ExecuteOperatorRequest` | FX/operations/services.py:631-770 | error or new tables for every branch of the three releases |
| `OperatorControl.ReleasesMatchExecutedRequests` | FX/operations/services.py:595-770 | in every run, releases of freezes, halts and holds stand one to one with EXECUTED requests, each approved before expiry by another than its maker, executed by another than its maker, and naming the released row; one active freeze per account and one active halt per tenant |
| `OperatorControl.RunGrows` | FX/operations/services.py:595-770 | rows keep their identity, what is released or executed stays so, and audit rows are only added |
| `OperatorControl.FreezeEndsOnlyByProperRelease` | FX/operations/services.py:428-444 | over every run, a check that a freeze denied passes again only after a proper release of that very freeze; a mutation outside the four kinds can also pass once the freeze was lowered to PARTIAL |
| `OperatorControl.RefreezeLowersFullFreeze` | FX/operations/views.py:637-646 | concrete run in which a FULL freeze stops denying without a release |
| `OperatorControl.TradingHaltEndsOnlyByProperRelease` | FX/operations/services.py:429-432 | over every run, TRADING_HALTED stops only after a proper release of the halt that was active |
| `OperatorControl.HoldEndsOnlyByProperRelease` | FX/operations/services.py:842-856 | over every run, deletion is unblocked only after each hold that blocked it was properly released |
| `OperatorLaws.DeniedIff` | FX/operations/services.py:428-444 | over every run: with an unreleased freeze the four kinds are denied, and any other if and only if it is FULL; with an unreleased halt trading is denied as halted; nothing else is denied |
| `OperatorLaws.NoLevelDeniesNothing` | FX/operations/services.py:436-437 | a freeze at no level denies nothing |
| `OperatorLaws.FreezeTakesHold` | FX/operations/views.py:618-646 | freezing an account of the tenant freezes it at the level asked for, and no one else |
| `OperatorLaws.HaltTakesHold` | FX/operations/views.py:1264-1277 | a reason stops the tenant's trading, and no one else's |
| `OperatorLaws.HoldTakesHold` | FX/operations/views.py:1046-1061 | a hold blocks the deletion of that account, and of no other |
| `OperatorLaws.PolicyByRole` | FX/operations/services.py:76-85 | the role policy, read by role |
| `OperatorLaws.CreatedIff` | FX/operations/views.py:991-1020 | a request is created if and only if the role allows it and a reason is given; it is pending for an hour |
| `OperatorLaws.ApprovedIff` | FX/operations/services.py:599-615 | an approval goes through if and only if the tenant's request is pending and not expired and the approver is another person with the role; each error otherwise |
| `OperatorLaws.ExecutedIff` | FX/operations/services.py:635-740 | an execution goes through if and only if the request is approved, the executor is not its maker and has the role, the action is a release, and the target names an unreleased row of the tenant; each error otherwise |
| `OperatorLaws.ExecutedReleases` | FX/operations/services.py:663-754 | exactly the named row is released, by the executor and at that time |
| `OperatorLaws.UnfreezeCanBeObtained` | FX/operations/services.py:724-754 | a frozen account can always be released by a maker, another approver and an executor with the security role |
| `OperatorLaws.TradingCanBeResumed` | FX/operations/services.py:650-684 | a halt can always be released with the operations role |
| `OperatorLaws.HoldCanBeReleased` | FX/operations/services.py:686-722 | a hold can always be released with the compliance role |
| `Targets.Partition` | FX/operations/services.py:651 | the text splits at the first separator, and only there |
| `Targets.AccountTargetRoundTrip` | FX/operations/services.py:724-729 | the target text of an account reads back as that account |
| `Targets.KeyTargetsRoundTrip` | FX/operations/services.py:651-698 | so do the texts of halts and holds |
| `Targets.OtherTargetsAreUnreadable` | FX/operations/services.py:651-726 | no other text names anything |
| `Operations.OperationsStore.IssueSimulationStatement` | FX/operations/services.py:793-839 | error or the one new statement row |
| `Operations.OperationsStore.StartReport` | FX/operations/tasks.py:113-128 | the first transaction of a report job |
| `Operations.OperationsStore.HandleSupportEvent` | FX/operations/views.py:849-923 | reply and new case row for every event: unknown events, teams, assignees and statuses are refused and change nothing |
| `Operations.StepKeepsConsistent` | FX/operations/tasks.py:148-156 | every operator, statement, case, job and notification step keeps what the six checks rest on, with failure handlers that overwrite any status |
| `Operations.ReconciliationNeverFails` | FX/operations/services.py:859-895 | no reachable state fails one of the six checks for any tenant, so RECONCILIATION_REQUIRED is never raised along a run |
| `Operations.VersionsAreContiguous` | FX/operations/services.py:810-830 | below a version stands every smaller one, of the same tenant and account |
| `Operations.ChainsNeverFork` | FX/operations/models.py:327-332 | no two statements supersede the same one |
| `Operations.StatementChainsInEveryRun` | FX/operations/services.py:810-830 | in every run the versions of a statement id are exactly 1..n, each above 1 supersedes the one before for the same tenant and account, and chains never fork |
| `Operations.ChecksFailIff` | FX/operations/services.py:859-886 | for every table the checks fail for a tenant if and only if one of seven kinds of inconsistent row exists |
| `Operations.IssuedIff` | FX/operations/services.py:797-830 | each refusal exactly where it is due, and the row that is issued otherwise |
| `Operations.FirstStatementIsIssued` | FX/operations/services.py:810-830 | in every reachable state a sound statement can be issued under a new id |
| `Operations.LatestStatementIsCorrected` | FX/operations/services.py:812-830 | in every reachable state the latest version can be corrected with a reason |
| `Operations.CaseComesTo` | FX/operations/views.py:867-923 | what each support event writes, and what is refused |
| `Operations.JobComesTo` | FX/operations/tasks.py:119-180 | what starting, finishing and failing write to a job |
| `Operations.NoticeComesTo` | FX/operations/services.py:864-866 | what each delivery event writes to a notification |
| `Operations.ReportIsProduced` | FX/operations/tasks.py:113-180 | in every reachable state a report is created, starts, and ends with its artifact |
| `Operations.ExportIsProduced` | FX/operations/tasks.py:195-300 | so is an export |
| `Operations.UnreconciledReportFails` | FX/operations/tasks.py:123-126 | an unreconciled report fails instead of starting |
| `Reconciliation.Groups` | FX/financial_boundary/reconciliation.py:81-88 | raises iff a row has no reference; otherwise every reference is mapped to its rows in order, and nothing else is |
| `Reconciliation.SingleIndex` | FX/financial_boundary/reconciliation.py:91-92 | raises iff a row has no reference; otherwise every reference is mapped to its last row |
| `Reconciliation.DuplicatedByCounts` | FX/financial_boundary/reconciliation.py:119-124 | group size and effect counts find exactly the references of which two different rows share the reference or a truthy effect id |
| `Reconciliation.FlagMissing` | FX/financial_boundary/reconciliation.py:116-118 | adds exactly the operations that need a financial operation and have none |
| `Reconciliation.FlagDuplicates` | FX/financial_boundary/reconciliation.py:119-124 | adds exactly the duplicated references, with their rows |
| `Reconciliation.FlagReservations` | FX/financial_boundary/reconciliation.py:126-143 | raises iff some reservation cannot be judged; otherwise adds the first orphan and the first leak of each reference |
| `Reconciliation.CompareDomain` | FX/financial_boundary/reconciliation.py:161-166 | raises iff a row has no reference; otherwise adds exactly the references whose last rows differ or that one side lacks |
| `Reconciliation.FlagOperationGaps` | FX/financial_boundary/reconciliation.py:175-183 | raises iff an audit action cannot be hashed; otherwise adds exactly the operations without their audit or outbox row |
| `Reconciliation.FlagEventGaps` | FX/financial_boundary/reconciliation.py:184-187 | adds the first unreceived event of each reference that has no finding yet |
| `Reconciliation.FirstIsLeast` | FX/financial_boundary/reconciliation.py:106-111 | the source kept for a key is the first that was added for it |
| `Reconciliation.ExpectedIffViolates` | FX/financial_boundary/reconciliation.py:113-187 | a finding is recorded for a key if and only if the reference satisfies that violation's own predicate |
| `ViolationLaws.FalsyValues` | FX/financial_boundary/reconciliation.py:117 | the values taken for false |
| `ViolationLaws.LatestIsLastPosition` | FX/financial_boundary/reconciliation.py:91-92 | the row that stands for a reference is at its last position |
| `ViolationLaws.MissingMeans` | FX/financial_boundary/reconciliation.py:116-118 | listed if and only if the operation does not say that it needs none and no financial row has the reference |
| `ViolationLaws.DuplicateMeans` | FX/financial_boundary/reconciliation.py:119-124 | listed if and only if two positions share the reference, or one of them a truthy effect id with another |
| `ViolationLaws.OrphanMeans` | FX/financial_boundary/reconciliation.py:127-133 | listed if and only if a reservation has no operation, or names another tenant |
| `ViolationLaws.LeakMeans` | FX/financial_boundary/reconciliation.py:126-143 | listed if and only if a reservation in one of the three live states has expired or belongs to an operation in one of the four terminal ones |
| `ViolationLaws.SettlementMismatchMeans` | FX/financial_boundary/reconciliation.py:145-151 | one side lacks the reference or the last rows differ in one of five fields |
| `ViolationLaws.WalletMismatchMeans` | FX/financial_boundary/reconciliation.py:153-159 | one side lacks the reference or the last rows differ in one of six fields |
| `ViolationLaws.DepositMismatchMeans` | FX/financial_boundary/reconciliation.py:168-171 | one side lacks the reference or the last rows differ in state, credited amount or asset |
| `ViolationLaws.WithdrawalMismatchMeans` | FX/financial_boundary/reconciliation.py:172 | one side lacks the reference or the last rows differ in state |
| `ViolationLaws.TransferMismatchMeans` | FX/financial_boundary/reconciliation.py:173 | one side lacks the reference or the last rows differ in state |
| `ViolationLaws.AuditGapMeans` | FX/financial_boundary/reconciliation.py:175-187 | listed if and only if the operation lacks the audit or outbox row it asks for, or an event has no id or one the inbox lacks |
| `ViolationLaws.MalformedMeans` | FX/financial_boundary/reconciliation.py:84-187 | exactly when the comparison raises, in terms of the rows |
| `ViolationLaws.SourcesMean` | FX/financial_boundary/reconciliation.py:106-187 | which evidence each finding is hashed from |
| `Reports.RankFollowsNames` | FX/financial_boundary/reconciliation.py:189 | the order of violations used for sorting is that of their names |
| `Reports.Reconcile` | FX/financial_boundary/reconciliation.py:104-189 | raises iff the evidence is malformed; otherwise the findings are strictly sorted by (violation, reference), so free of duplicates, and are exactly the expected ones with their sources |
| `Reports.ReconcileFinancialBoundary` | FX/financial_boundary/reconciliation.py:99-195 | raises iff the given time has no zone or the evidence is malformed; otherwise the report holds those findings with their evidence hashes, the ten checks, the time and the report hash |
| `Reports.ReportHolds` | FX/financial_boundary/reconciliation.py:189-195 | every finding hashes the evidence of its key, the report hashes its findings, the ten checks are listed in order and the time is the moment's |
| `Reports.ReadyIffNothingViolates` | FX/financial_boundary/reconciliation.py:67-69 | a report is activation ready if and only if no reference is in any violation |
| `Permutations.ReportListsViolations` | FX/financial_boundary/reconciliation.py:113-189 | a report lists a (violation, reference) pair if and only if the declarative predicate holds of it |
| `Permutations.ReportIsUnique` | FX/financial_boundary/reconciliation.py:189-195 | the expected findings determine the report |
| `Permutations.OrderNeverMattersIff` | FX/financial_boundary/reconciliation.py:91-97 | reordering a compared section changes no mismatch, whatever it is compared with, if and only if rows that share a reference agree on the compared fields |
| `OperationOrder.OrderNeverTellsIff` | FX/financial_boundary/reconciliation.py:113-183 | reordering the operations changes neither raises nor violations, whatever else the evidence holds, if and only if operations that share a reference have the same need of a financial operation, tenant, terminal and hashable state, audit action and outbox flag, or no order can be compared |
| `Permutations.PermutationKeepsReport` | FX/financial_boundary/reconciliation.py:99-195 | permuting every section leaves the listed pairs unchanged when repeated operations are alike and repeats in compared sections are interchangeable; the other sections may repeat freely |
| `Permutations.UniqueMakesOrderIdle` | FX/financial_boundary/reconciliation.py:91-92 | unique references throughout are enough for that |
| `Permutations.PermutationKeepsSources` | FX/financial_boundary/reconciliation.py:106-111 | with unique references everywhere the sources are unchanged too |
| `Permutations.PermutationKeepsBoundaryReport` | FX/financial_boundary/reconciliation.py:189-195 | and so is the returned report, down to its hash |
| `Permutations.ErrorsUnderPermutation` | FX/financial_boundary/reconciliation.py:99-195 | permuted evidence raises exactly when the evidence does, when repeated operations are alike |
| `Permutations.OrderMattersWithRepeats` | FX/financial_boundary/reconciliation.py:91-92 | concrete rows: with a repeated reference the order decides whether there is a mismatch |
| `Records.CompareRecords` | FX/financial_boundary/reconciliation.py:217-236 | raises iff a reference is missing, cannot be hashed or the references cannot be sorted; otherwise sorted, one finding a reference, and exactly the classified ones |
| `Records.RecordsRaiseIff` | FX/financial_boundary/reconciliation.py:220-224 | it raises if and only if a row has no reference or one that cannot be a key, or two references are neither equal nor both numbers nor both texts |
| `Records.ClassifiedIff` | FX/financial_boundary/reconciliation.py:226-233 | what each classification means: an authoritative repeat, an application repeat, a row that one side lacks, two rows in different states |
| `Records.KeysInOrder` | FX/financial_boundary/reconciliation.py:224 | keys are sorted as numbers and as texts |
| `Records.FlagsMismatchesAndRepeats` | FX/financial_boundary/reconciliation.py:224-233 | where references are equal values exactly when they are spelled alike: a row is flagged if and only if the comparison of the domain by state flags it or one side repeats it |
| `Records.AgreesWithDomain` | FX/financial_boundary/reconciliation.py:161-166 | on duplicate-free inputs of that kind the two comparisons flag the same rows, and the quick one calls each missing or in another state |
| `Records.AgreesOnTexts` | FX/financial_boundary/reconciliation.py:217-233 | in particular on duplicate-free inputs whose references are texts |
| `Records.AgreesIffRepeatsDiffer` | FX/financial_boundary/reconciliation.py:226-229 | with repeats the two agree if and only if every repeated reference also ends in differing rows |
| `Records.EqualValuesSpelledApart` | FX/financial_boundary/reconciliation.py:220-233 | any one value spelled in two ways: nothing raises, the quick comparison flags nothing and the comparison of the domain flags both |
| `Records.OneAndOnePointZero` | FX/financial_boundary/reconciliation.py:220-233 | 1 and 1.0 are such a pair |
| `Records.EmptyReferenceRaisesInDomain` | FX/financial_boundary/reconciliation.py:84-86 | an empty reference makes only the comparison of the domain raise |
| `Records.AgreeIffCoherent` | FX/financial_boundary/reconciliation.py:217-233 | for all inputs: the two raise together and flag the same rows in every state if and only if the references raise together and, at every row, the spelling is on both sides exactly when the value is once on each side, naming the same two rows |
| `Records.CoherentIffKeysMatchAcross` | FX/financial_boundary/reconciliation.py:217-233 | on duplicate-free inputs that condition is just: a value on one side equals one on the other exactly when they are spelled alike |
| `JsonPointer.ResolveReference` | scripts/validate_openapi.py:128-147 | the token loop computes pointer resolution |
| `JsonPointer.UnescapeEscape` | scripts/validate_openapi.py:135 | the two replacements, in that order, undo the escaping of every token |
| `JsonPointer.KnownTokens` | scripts/validate_openapi.py:135 | the escapes of section 3 of RFC 6901, read in the order of its section 4 |
| `JsonPointer.ResolvePrinted` | scripts/validate_openapi.py:132-143 | resolving the pointer printed from a node's path yields exactly that node, whatever its keys hold |
| `JsonPointer.ResolvesIffPointsTo` | scripts/validate_openapi.py:128-147 | for every fragment: it resolves to a node if and only if it is empty or begins with a slash and a path to that node spells its unescaped tokens |
| `JsonPointer.UnpairedTildeResolves` | scripts/validate_openapi.py:135-143 | a name with tildes that escape nothing is no pointer of the standard, and resolves to the member of that very name |
| `JsonPointer.UnpairedTildeExample` | scripts/validate_openapi.py:135 | such a name exists |
| `JsonPointer.ResolvesIffPrinted` | scripts/validate_openapi.py:128-147 | a fragment is the printed pointer of a path to a node if and only if it resolves to that node and is well formed |
| `JsonPointer.WalkIffReferencesPointToNodes` | scripts/validate_openapi.py:122-158 | the walk accepts if and only if every `$ref` of every object at every depth is a text that begins with # and whose fragment points to an existing node |
| `OpaqueCursor.PaddingIsRebuilt` | FX/news_app/newsdata.py:151-161 | the padding rebuilt from the length is exactly what was stripped |
| `OpaqueCursor.FeedEncoding` | FX/news_app/newsdata.py:153-159 | a letter-by-letter decoder inverts the group-by-group encoder on every byte string |
| `OpaqueCursor.Base64RoundTrip` | FX/news_app/newsdata.py:153-159 | decoding the repadded, stripped encoding gives the bytes back |
| `OpaqueCursor.CursorRoundTrip` | FX/news_app/newsdata.py:151-161 | every non-empty provider cursor survives the round trip |
| `OpaqueCursor.DecodedIff` | FX/news_app/newsdata.py:156-161 | what every other cursor decodes to, or that it is refused |
| `OpaqueCursor.KnownVectors` | FX/news_app/newsdata.py:153 | test vectors of section 10 of RFC 4648 and the URL-safe letters |
| `OpaqueCursor.LettersDecoded` | FX/news_app/newsdata.py:159 | which characters count as letters |
| `OpaqueCursor.KnownDecodings` | FX/news_app/newsdata.py:159 | short padding and characters beyond ASCII are refused, others skipped |
| `Labels.UnescapeEscape` | operations/verify_metrics_zero.py:46-52 | the four replacements undo Prometheus escaping, except that a NUL becomes a backslash |
| `Labels.LabelRoundTripIff` | operations/verify_metrics_zero.py:46-52 | the round trip holds if and only if the label holds no NUL |
| `Labels.KnownEscapes` | operations/verify_metrics_zero.py:46-52 | the three escapes as the format writes them |

## Left out

- HTTP handling, permissions, serializers and idempotent command replay around the operator, support and retry views: their implementation is elsewhere.
- Hashing, UUID derivation, the JSON library, lower-casing and percent-decoding are parameters, assumed collision free or to read back what they wrote only where a lemma says so.
- Constructor validation of envelopes, projection events and evidence bundles, webhook signatures and replay windows, and the audit rows written beside each step.
- Digits beyond ASCII in `isdecimal` and `isdigit`: array indexes and account targets are modelled on ASCII digits.
- Fencing of outbox publishers: `mark_outbox_published` does not ask who holds the lease, so no such property is claimed. Dead letters are not modelled.
- Outbox.ClaimedWithinBound: assumes no release in between and that no claim finds the row locked.
- Projection.ScheduleConverges: assumes that the reducer accepts the entries in question, since a reducer that raises stops its cursor for good.
- Client.RequestAttempts: time passes only in the transport.
- Client.AttemptEndsInTime: a transport that honours its timeouts takes at most their sum.
- Interleavings inside one operator, support, job or statement transaction: each is one step, as its row locks and unique constraints make it.
- Operations.OperationsStore.HandleSupportEvent: the event rows and the visibility of messages are not modelled.
- Reports.ReconcileFinancialBoundary: metrics are not modelled, and evidence values are JSON values with their `str` spelling.
- The lifecycle tables of FX/financial_boundary/contracts.py, account risk scoring, session and login handling, notification outbox delivery, CSV rendering, incident building and deployment validators.
- The NewsData client's circuit breaker and the user import jobs: exits that keep a reserved probe, and a status read without a lock, leave no run invariant to prove.
