# Fee Payment Contract services: verification model

A Dafny model of the off-chain half of the Aztec Fee Payment Contract: the top-up daemon that keeps the contract funded
with Fee Juice, the attestation service that prices and signs quotes, the client that requests and spends them, and the
script that mints on L1. `dafny verify dfyconfig.toml` checks everything; nothing here is run.

## What is modelled

**The top-up daemon** (`services/topup`). Each cycle reconciles the persisted record of a bridge, reads the balance and
may submit one L1 to L2 bridge: submit, persist, poll, clear.

- `Protocol` is a deterministic state machine over the steps between awaits. Whatever the node, the store, the clock or
  the operating system decides is in the event: reads that throw, store operations that fail before or after taking
  effect, shutdown signals, a process that ends anywhere and starts again, an entry corrupted from outside.
  `ProtocolSafety` proves one invariant of every step, `ProtocolProperties` the promises over every run,
  `ProtocolShutdown` what a requested shutdown still allows, `ProtocolHistory` what happened to a bridge in each class,
  and `TopupLedger` adds the balance the daemon watches.
- `TopupService` is the daemon on its own mutable fields and its database. Every step logs a protocol event, and the
  fields are proved to mirror the protocol state at every await, so the theorems about runs hold of the fields. The
  contract of a whole cycle says which counters, which stored entry and which abort flag it leaves for every script of
  outcomes (`TopupScript`), and `TopupLaps` follows the scripts through cycles in a row. `TopupLaws` is a second account
  of a cycle, in the fields of its script and of the configuration alone, proved of the first.
- `Confirm` is the confirmation poller: closed forms over the history of reads, delays, readiness and abort, and the
  loop on mutable fields that stops at the first attempt whose verdict is not to go on. `ConfirmProperties` proves what
  the verdicts promise, and `ConfirmOutcome` is a second account of what a call returns, in the fields of its options and
  its environment alone. `Reconcile`, `BridgeState`, `BridgeRetry` and `Decimal` are the reconciliation as a function, the
  persisted record, the nonce-retry loop around the L1 portal, and decimal text.

**The quote path** (`services/attestation`, `sdk`, `contracts/fpc`). `Pricing` is the exact-fraction price; `Wire` the
decimal and hex texts; `Addresses` and `Quotes` the signed lists and the contract's checks; `PolicyStore` the persistent
asset policies, with `PolicyLaws` on what a store holds after any sequence of operations; `Metrics` the counters and the
histogram; `QuoteRoutes` the two routes, the client, and the theorems that follow a quote from the request to the
contract; `QuoteLaws` a second account of how the routes answer every request, in its texts and the numbers signed;
`RateFormat` a concrete service in the rate format.

**Minting** (`scripts/services`). `L1Funding` is the send with a managed nonce and the loop that mints until a target.

**Sending** (`sdk`). `ColdStart` is the wait for a receipt and the retries around a cold-start transaction.

`Outcomes`, `Texts` and `Division` hold shared result types, text search and facts about quotients.

## Where the code and its words differ

The model follows the code.

- A failed write of the bridge record does not crash the daemon, as the comment at services/topup/src/index.ts:296-298
  says: the top-up checker catches it (services/topup/src/checker.ts:164-165) and the next cycle bridges again
  (`ProtocolProperties.LostWriteBridgesAgain`). A bridge is lost exactly by a write that fails without taking effect or
  by a process that ends before its write does (`ProtocolHistory.LostExactlyWhen`).
- "A tracked bridge is never duplicated" fails where the read of a well-formed record throws and the best-effort clear
  fails too (services/topup/src/reconcile.ts:45-52). Two bridges are tracked exactly then
  (`ProtocolHistory.TwoTrackedExactlyWhen`); with honest reads there is never more than one.
- No bridge call starts after a shutdown, but one that started before may still reach the portal after it
  (`ProtocolShutdown.PortalCallAfterShutdown`): exactly as often as it has portal calls left, and not at all unless the
  cycle stands at its bridge call (`ProtocolShutdown.PortalCallsAfterShutdownExactly`).
- The message-ready action runs once, although its log says "retrying" (services/topup/src/confirm.ts:198-213). A
  readiness check that answers "not ready" keeps a call from ever confirming
  (`ConfirmProperties.NotReadyNeverConfirms`). From 1 ms the poll interval never grows
  (`ConfirmProperties.BackoffReachesCap`).
- Rate quotes and amount quotes share a domain separator, and the contract knows amount quotes only. It takes a rate
  quote exactly where the final rate is one, written with the quoted amount as numerator and denominator
  (`QuoteRoutes.QuoteIsAcceptedExactlyWhen`); at the rate 1 / 1 that is the amount 10000 and no other
  (`RateFormat.RateQuoteAtUnitRate`).
- A quote request whose chain-time read throws is not counted by the metrics at all (`QuoteRoutes.HandleQuote`).
- A cold-start transaction that was sent and then dropped is sent again where the node's error names the stale anchor;
  one that was mined and reverted is sent again where the node's result or error names it
  (`ColdStart.MinedIsSentAgainExactlyWhen`, with such a node in `ColdStart.MinedTransactionSentAgain`), and one that timed
  out never is (`ColdStart.SentAgainExactlyWhen`).
- A corrupted signature text is shortened in silence rather than refused (`Wire.HexDecodesExactly`).

## Model

| member | source | states |
|---|---|---|
| `Decimal.PrintThenRead` | services/topup/src/state.ts:172-181 | A printed natural is canonical text, has no leading zero unless it is zero, and reads back as the number |
| `Decimal.ReadThenPrint` | services/topup/src/state.ts:66-76 | Canonical text is the only text that prints its own value |
| `Decimal.CanonicalInjective` | services/topup/src/state.ts:66-76 | Canonical texts and naturals are in bijection: equal values mean equal texts |
| `Decimal.PrintIntCanonical` | services/topup/src/state.ts:66-76 | An integer prints as canonical text exactly if it is not negative |
| `Decimal.Positional` | services/topup/src/state.ts:172-181 | A digit text is worth ten times the text before its last digit plus that digit |
| `BridgeState.ReadAfterWrite` | services/topup/src/state.ts:66-184 | The validators accept what a write stored exactly for well-formed bridge results, and give the same record and the original integers back |
| `BridgeState.WriteAfterRead` | services/topup/src/state.ts:87-140 | Every accepted entry is what a write stores for exactly the result it stands for |
| `BridgeState.StoredInjective` | services/topup/src/state.ts:160-184 | Different well-formed results never share a stored entry |
| `BridgeState.ReadsFieldByField` | services/topup/src/state.ts:87-140 | Which entries are accepted, field by field, and that each field of the record is the one stored under its name |
| `BridgeState.FieldHexExactly` | services/topup/src/state.ts:67-85 | A field element text is `0x` and 64 hex digits of either case, and nothing else |
| `BridgeState.BridgeStateStore.Read` | services/topup/src/state.ts:153-159 | Nothing for a missing entry, the record for a valid one, an exception for a malformed one or a failing database |
| `BridgeState.BridgeStateStore.Write` | services/topup/src/state.ts:160-184 | The stored entry after a write that works, fails before or fails after taking effect |
| `BridgeState.BridgeStateStore.Clear` | services/topup/src/state.ts:185-187 | The stored entry after a clear that works, fails before or fails after taking effect |
| `BridgeState.WriteCloseReopenRead` | services/topup/src/state.ts:144-189 | Writing, closing, reopening and reading gives the record back exactly for well-formed results |
| `BridgeRetry.BridgeFeeJuice` | services/topup/src/bridge.ts:94-140 | For any limit: at most that many portal calls, ended by the first that is no retryable conflict, its result returned, total delay base times 2^k - 1; the closing throw is unreachable |
| `BridgeRetry.OneLastCall` | services/topup/src/bridge.ts:113-135 | There is exactly one last call; all before it were refused and none of them for a nonce that is too low |
| `BridgeRetry.NonceTooLowWins` | services/topup/src/bridge.ts:53-66 | A message that matches both classifiers ends the loop at once |
| `BridgeRetry.ReturnsExactly` | services/topup/src/bridge.ts:94-140 | Every call but the last met one of the three conflicts and no nonce too low; the last one claimed, met such a nonce, met no conflict, or was the last allowed; what is returned in each case |
| `BridgeRetry.ClassifiedExactly` | services/topup/src/bridge.ts:53-66 | Which error texts are retried and which end the loop, letter by letter |
| `Confirm.ConfirmationState.constructor` | services/topup/src/confirm.ts:100-120 | The initial fields are the closed forms over an empty history |
| `Confirm.ConfirmationState.Await` | services/topup/src/confirm.ts:149-192 | The readiness flags are those of the promise as settled by each await point |
| `Confirm.ConfirmationState.MaybeRunMessageReadyAction` | services/topup/src/confirm.ts:194-215 | The action runs exactly at the first ready attempt, at most once, with exactly one of succeeded and failed set |
| `Confirm.ConfirmationState.PollBalanceOnce` | services/topup/src/confirm.ts:217-234 | Maximum, last value, error and success counts are those of the reads so far; true exactly if this read succeeded and the maximum exceeds the baseline |
| `Confirm.ConfirmationState.WaitForNextPoll` | services/topup/src/confirm.ts:236-252 | Sleeps the shorter of interval and time left, never past the deadline; the interval grows by half up to the cap |
| `Confirm.ConfirmationState.Attempt` | services/topup/src/confirm.ts:264-281 | One attempt accepts exactly if its own read shows the bridge and the message gate is open |
| `Confirm.ConfirmationState.PollUntilConfirmed` | services/topup/src/confirm.ts:254-292 | The loop stops at the first attempt whose verdict is not to go on, with the fields of that history |
| `Confirm.WaitForFeeJuiceBridgeConfirmation` | services/topup/src/confirm.ts:302-331 | The call returns exactly what the first stopping attempt prescribes, in closed form; `ConfirmOutcome` says what that is without the closed forms |
| `ConfirmProperties.FirstStopUnique` | services/topup/src/confirm.ts:254-292 | Only one attempt is the first to stop |
| `ConfirmProperties.ConfirmedExactlyAtFirstShow` | services/topup/src/confirm.ts:259-289 | Confirmed after k + 1 attempts exactly if attempt k is the first to show the bridge and neither deadline nor abort came before |
| `ConfirmProperties.NotReadyNeverConfirms` | services/topup/src/confirm.ts:180-191 | Without a ready answer or a failed check the call never confirms |
| `ConfirmProperties.BackoffStaysInRange` | services/topup/src/confirm.ts:236-252 | The interval never decreases and stays between initial and cap |
| `ConfirmProperties.BackoffGrowth` | services/topup/src/confirm.ts:250 | From 2 ms on a step grows the interval by a third or reaches the cap; 1 ms stays 1 ms |
| `ConfirmProperties.BackoffFloor` | services/topup/src/confirm.ts:250 | The interval after k sleeps is at least initial + k, up to the cap |
| `ConfirmProperties.BackoffReachesCap` | services/topup/src/confirm.ts:250 | The cap is ever reached exactly if the interval starts there or above 1 ms |
| `ConfirmProperties.SleepsEndByDeadline` | services/topup/src/confirm.ts:241-246 | Every sleep is positive and ends by the deadline |
| `ConfirmProperties.ClockAdvances` | services/topup/src/confirm.ts:236-259 | k sleeps take at least k initial intervals, up to the deadline |
| `ConfirmProperties.AttemptsBounded` | services/topup/src/confirm.ts:254-292 | A call makes at most ceil(timeout / initial) + 1 attempts |
| `ConfirmProperties.AttemptsBoundTight` | services/topup/src/confirm.ts:254-292 | The attempt bound is reached |
| `ConfirmProperties.Accounting` | services/topup/src/confirm.ts:217-234 | Successes and errors add up to the attempts; the maximum is attained and bounds every read |
| `ConfirmProperties.ActionRunsOnFirstReadyAttempt` | services/topup/src/confirm.ts:194-215 | The action runs exactly if some attempt sees readiness, and at the first such attempt |
| `ConfirmProperties.ReportAddsUp` | services/topup/src/confirm.ts:122-143 | Every report is consistent: attempts, maximum, delta, action and gate agree |
| `ConfirmProperties.ThrowsExactlyWithoutSignal` | services/topup/src/confirm.ts:319-328 | The call throws exactly if the deadline ended it with no successful read and no readiness |
| `ConfirmOutcome.EndsExactlyAs` | services/topup/src/confirm.ts:254-331 | For every call and every number of attempts: confirmed exactly at the first attempt in time that reads a balance after some read above the baseline, with no message context, an invalid hash, a ready message or a failed check; aborted or overdue exactly where the signal or the deadline comes first |
| `ConfirmOutcome.ThrowsExactlyWhen` | services/topup/src/confirm.ts:319-328 | The call throws exactly if the deadline ended it, no read succeeded and the message was not ready at the end |
| `ConfirmOutcome.FlagsAreAt` | services/topup/src/confirm.ts:149-192 | At which await point the readiness flags of the report are read, and what they say there |
| `ConfirmOutcome.ReadsReported` | services/topup/src/confirm.ts:217-234 | Maximum, last value, delta and error count of the report in terms of the answers of the reads |
| `ConfirmOutcome.ActionReported` | services/topup/src/confirm.ts:194-215 | Whether the report says that the action ran, and how it went, in terms of the first attempt that finds the message ready |
| `ConfirmOutcome.UnreadyNeverConfirms` | services/topup/src/confirm.ts:269-276 | A valid hash whose message never settles or settles as not ready: no confirmation, whatever the balance |
| `ConfirmOutcome.AttemptsFit` | services/topup/src/confirm.ts:254-292 | All attempts but two take at least the initial interval each, together less than the timeout |
| `ProtocolSafety.BodyStepKeepsInv` | services/topup/src/checker.ts:87-169 | Every step of a cycle keeps the invariant |
| `ProtocolSafety.NextKeepsInv` | services/topup/src/index.ts:381-523 | Every event keeps the invariant: cycles, shutdown, close, exit, restart, corruption |
| `ProtocolSafety.RunKeepsInv` | services/topup/src/index.ts:476-523 | Every run keeps the invariant |
| `ProtocolProperties.TwoTrackedExactlyAfterMisread` | services/topup/src/reconcile.ts:42-53 | Two bridges are unsaved or saved at once exactly while a cycle that misread the stored record has a new one unsaved |
| `ProtocolHistory.TwoTrackedExactlyWhen` | services/topup/src/reconcile.ts:42-53 | The same over runs: a read threw on the stored record, no store operation took effect and nothing corrupted it since, and the cycle has a new bridge unsaved |
| `ProtocolHistory.MisreadExactlyWhen` | services/topup/src/reconcile.ts:42-53 | The record is misread exactly if a read of it threw and neither a store operation, a corruption, a new cycle nor a new process came since |
| `ProtocolProperties.BridgesOverRecordExactlyAfterMisread` | services/topup/src/checker.ts:87-108 | No bridge start, portal call or write happens over a well-formed record unless this cycle misread it |
| `ProtocolProperties.HonestRunsNeverMisread` | services/topup/src/reconcile.ts:42-53 | If reads throw only on ill-formed entries no cycle is ever in the misread case |
| `ProtocolHistory.HonestRunsTrackOne` | services/topup/src/index.ts:423-505 | Then at most one bridge is ever tracked, none is overwritten, and none starts or is written over a record |
| `ProtocolProperties.AdmittedCheckBridges` | services/topup/src/checker.ts:135-163 | An admitted check with a low balance can go all the way to a resolved bridge |
| `ProtocolProperties.MisreadBridgesTwice` | services/topup/src/reconcile.ts:45-53 | Wherever a cycle misreads a stored record and the clear fails, a low balance makes it bridge a second time |
| `ProtocolProperties.LostWriteBridgesAgain` | services/topup/src/checker.ts:164-165 | After a failed write the daemon goes on and the next cycle can bridge again |
| `ProtocolProperties.FateMovesForward` | services/topup/src/index.ts:290-330 | A step moves the class of a bridge only forward |
| `ProtocolProperties.FinalFateStays` | services/topup/src/index.ts:290-330 | Over any run no bridge is forgotten, and one that is no longer tracked keeps its class |
| `ProtocolProperties.ClassesMeanWhatTheySay` | services/topup/src/reconcile.ts:55-68 | Saved means stored, unsaved means about to be written, and no record aged 24 hours or less is ever evicted |
| `ProtocolProperties.OneCycleAtATime` | services/topup/src/index.ts:482-505 | At most one cycle body is active, and the in-flight flags say so |
| `ProtocolProperties.NoBridgeAfterShutdown` | services/topup/src/checker.ts:34-64 | Once a shutdown is requested no bridge call starts, over any run of the process |
| `ProtocolProperties.AbortSticks` | services/topup/src/index.ts:390-401 | A requested shutdown stays requested and a closed database stays closed |
| `ProtocolShutdown.PortalCallAfterShutdown` | services/topup/src/bridge.ts:109-115 | A bridge started before a shutdown may still call the portal after it |
| `ProtocolShutdown.PortalCallsAfterShutdownExactly` | services/topup/src/bridge.ts:109-135 | After a shutdown a run of the process can make n portal calls exactly if the bridge under way has n left; otherwise none |
| `ProtocolProperties.NoStoreOperationAfterClose` | services/topup/src/index.ts:402-415 | After the database is closed no cycle goes on and the store does not change |
| `ProtocolShutdown.ShutdownCanComplete` | services/topup/src/index.ts:390-415 | From wherever a cycle stands a requested shutdown can reach the close |
| `ProtocolShutdown.StoppingCycleEnds` | services/topup/src/index.ts:402-415 | Every run of a stopping process takes at most eleven more steps of its cycle, and after the last the cycle is over |
| `ProtocolShutdown.StoppingProcessIsNeverStuck` | services/topup/src/index.ts:402-415 | It can always take a next step of the cycle or close the database |
| `ProtocolHistory.ClassGivenExactlyWhen` | services/topup/src/index.ts:290-330 | A step gives a bridge a new class exactly when the event the class stands for happens to that bridge |
| `ProtocolHistory.FinalClassExactlyWhen` | services/topup/src/reconcile.ts:42-109 | Over every run a bridge is in a final class exactly if its event once happened to it: confirmed and cleared, evicted at that age, dropped, lost or overwritten |
| `ProtocolHistory.ClearedMeansConfirmed` | services/topup/src/confirm.ts:228-276 | A cleared bridge was confirmed by a poll of its own record, which observed more than the baseline of that bridge |
| `ProtocolHistory.LostExactlyWhen` | services/topup/src/checker.ts:156-168 | A bridge is lost exactly by a write that failed without taking effect or by an exit before the write did |
| `ProtocolHistory.HonestRunsOverwriteNone` | services/topup/src/reconcile.ts:42-53 | With honest reads no bridge is ever overwritten |
| `ProtocolProperties.BridgeEventsAddUp` | services/topup/src/ops.ts:74-76 | Outside a bridge, confirmed + timeout + aborted + failed equals the bridge calls started, and the first three are at most submitted |
| `ProtocolProperties.SubmittedCountsResolved` | services/topup/src/index.ts:290-304 | Over any run of a process the submitted counter grows with exactly the bridge calls that resolved |
| `ProtocolProperties.CountersCountEvents` | services/topup/src/ops.ts:74-76 | Over every run of a process each counter grows by the number of its events: low balances, bridges returned, polls of a new bridge ended with that status, and exceptions of bridge, write or poll |
| `TopupLedger.BridgesBoundedByLosses` | services/topup/src/config.ts:72-79 | Over every history the bridges that resolved exceed the records lost by at most one |
| `TopupLedger.HealthyHistoryBridgesOnce` | services/topup/src/config.ts:72-79 | While no record is lost at most one bridge is ever submitted |
| `TopupLedger.ConfirmedImpliesCredited` | services/topup/src/confirm.ts:269-276 | A confirmed bridge has been credited: the balance is at or above the threshold from then on |
| `TopupLedger.HistoryKeepsWorldInv` | services/topup/src/checker.ts:50-64 | The invariant of daemon and balance together over every history |
| `Reconcile.AdmitsOverRecordExactlyWhenMisread` | services/topup/src/reconcile.ts:42-109 | A check is admitted over a stored record exactly if its read threw and the clear took no effect |
| `Reconcile.YoungRecordSurvivesUnlessConfirmed` | services/topup/src/reconcile.ts:55-109 | A readable record aged 24 hours or less stays, and blocks the check, unless confirmed |
| `Reconcile.EvictionBoundsSurvival` | services/topup/src/reconcile.ts:55-68 | With reconciliations at least T apart a record survives at most floor(24 h / T) + 1 of them, whatever the node reports |
| `Reconcile.EvictionBoundTight` | services/topup/src/index.ts:421 | The bound is reached |
| `Reconcile.RemovalAdmitsCheck` | services/topup/src/index.ts:466-472 | The reconciliation that empties the store is the one that admits the check |
| `TopupService.Adopted` | services/topup/src/index.ts:381-388 | Every database, whatever it holds, can be taken over by a new process within the invariant |
| `TopupService.Service.constructor` | services/topup/src/checker.ts:126-133 | A new process over what earlier ones left mirrors the protocol's fresh process |
| `TopupService.Service.RequestShutdown` | services/topup/src/index.ts:390-401 | A signal stops checker and cycles, a second one changes nothing, and the database stays open for the running cycle |
| `TopupService.Service.ReadStored` | services/topup/src/reconcile.ts:42-68 | Whether the entry is dropped, evicted, polled for or absent, with the record found |
| `TopupService.Service.ClearStored` | services/topup/src/reconcile.ts:47-98 | The entry after a clear and where the cycle goes on, for every reason and failure |
| `TopupService.Service.Poll` | services/topup/src/index.ts:354-361 | The poll ends exactly as the poller's closed form prescribes, at once if a signal had fired; a shutdown is requested exactly if it was before or the poll aborts |
| `TopupService.Service.SettlePersisted` | services/topup/src/reconcile.ts:75-108 | Outcome, entry, admission and abort flag after the poll for the persisted record, which ends as the script says |
| `TopupService.Service.ReconcilePersisted` | services/topup/src/reconcile.ts:33-109 | Outcome and entry are those of the reconciliation function of what the script meets, and so is the abort flag |
| `TopupService.Service.CallBridge` | services/topup/src/index.ts:345-353 | The bridge returns what the portal's answers determine, with at most three calls and delays of 2 s and 4 s between them; a shutdown during set-up does not stop it |
| `TopupService.Service.OnBridgeSubmitted` | services/topup/src/index.ts:290-304 | Counts the submission first, then writes the record: every stored field is the one of the claim under its name, and the entry for every failure of the write |
| `TopupService.Service.OnBridgeSettled` | services/topup/src/index.ts:306-330 | Raises exactly the counter of the status by one and clears only a confirmed record; a failed clear is swallowed |
| `TopupService.Service.ConfirmBridge` | services/topup/src/checker.ts:105-107 | Counters and entry after the confirmation, which throws exactly if no balance was ever read |
| `TopupService.Service.PersistAndConfirm` | services/topup/src/checker.ts:97-107 | Write, confirm, settle after a bridge that resolved: counters, entry, abort flag and where it throws |
| `TopupService.Service.ExecuteBridgeAndConfirmation` | services/topup/src/checker.ts:87-108 | Bridge, persist, confirm, settle in this order; where it throws, what it counted, what it left stored, and the abort flag |
| `TopupService.Service.HandleBridgeFailure` | services/topup/src/checker.ts:110-121 | A failure is counted once and leaves the stored entry alone |
| `TopupService.Service.TopUp` | services/topup/src/checker.ts:154-168 | A started bridge counts exactly one end, and the in-flight flag is released either way |
| `TopupService.Service.CheckAndTopUp` | services/topup/src/checker.ts:135-169 | A bridge starts exactly with a low balance read and no shutdown before it; counters and entry follow from its course |
| `TopupService.Service.BeginCycle` | services/topup/src/index.ts:482-490 | A cycle begins exactly if no shutdown was requested and none is in flight |
| `TopupService.Service.RunCycle` | services/topup/src/index.ts:476-505 | The script of a cycle decides exactly whether a bridge is started, the counters, the stored entry, the number of resolved bridges and the abort flag |
| `TopupService.Service.CloseDatabase` | services/topup/src/index.ts:402-415 | The database is closed only when no cycle is running |
| `TopupService.Service.Serve` | services/topup/src/index.ts:507-523 | The scripts of the cycles decide the whole history, each cycle on what the one before left; all of them run unless one requests a shutdown or it comes while idle, and then the database is closed |
| `TopupLaps.ScriptDecides` | services/topup/src/index.ts:476-505 | Two accounts of one cycle agree on entry, counters, abort flag and whether a bridge was started |
| `TopupLaps.ShownRecordIsCleared` | services/topup/src/reconcile.ts:75-102 | Where the poll for the record shows the bridge, the clear works and no signal arrives, the record is cleared and the check runs |
| `TopupLaps.LeadsOn` | services/topup/src/index.ts:519-521 | Cycles compose: each takes over entry, counters and bridge numbers |
| `TopupLaps.RecordIsGoneWithin` | services/topup/src/reconcile.ts:55-68 | In the running service with cycles T apart, honest reads and working clears, one of the first floor(24 h / T) + 2 cycles empties the store, whatever the node reports; until then no bridge starts |
| `TopupService.Service.TracksOneBridge` | services/topup/src/index.ts:476-505 | The running service tracks at most one bridge at every await if its reads are honest |
| `TopupService.Service.EndedProcessCanBeFollowed` | services/topup/src/index.ts:421-474 | Wherever a process ends, exit and start lead to a state from which a new one can take over the database as it was left |
| `TopupService.Restart` | services/topup/src/state.ts:144-149 | A new process on the reopened database continues the run of the one that ended |
| `TopupService.WrittenMirrors` | services/topup/src/state.ts:160-184 | What is written reads back as the record it stands for, or is junk for an ill-formed bridge result |
| `TopupService.Service.CountersCount` | services/topup/src/ops.ts:74-76 | At every await each counter field of the service is the number of its events in the log |
| `TopupLaws.SettlingPollEnds` | services/topup/src/reconcile.ts:75-87 | The poll for a stored record ends as a confirmation with its baseline, its message and every configured parameter |
| `TopupLaws.ConfirmingPollEnds` | services/topup/src/index.ts:354-361 | So does the poll for a new bridge, with the balance that started it as baseline |
| `TopupLaws.UnreadyRecordStays` | services/topup/src/reconcile.ts:75-102 | A record whose message is not ready stays, whatever the balance, and nothing is started over it |
| `TopupLaws.UnreadyBridgeStays` | services/topup/src/index.ts:306-330 | A new bridge whose message is not ready is neither counted as confirmed nor cleared |
| `TopupLaws.RecordConfirmedExactlyWhen` | services/topup/src/reconcile.ts:75-102 | A record is found confirmed exactly if no signal came before the poll and at some attempt by the deadline, all earlier ones having gone on, the bridge has arrived |
| `TopupLaws.BridgeConfirmedExactlyWhen` | services/topup/src/checker.ts:105-107 | The same for a new bridge |
| `TopupLaws.NewPollReported` | services/topup/src/index.ts:354-361 | Its poll makes no more attempts than the timeout allows and runs the claim action exactly if the daemon is configured to and some attempt finds the message ready |
| `TopupLaws.KeptExactlyWhen` | services/topup/src/reconcile.ts:42-102 | What is stored goes exactly if the read threw, the record is older than 24 hours or its poll confirmed it, and the clear takes effect |
| `TopupLaws.StartedExactlyWhen` | services/topup/src/checker.ts:135-156 | When a cycle starts a bridge, in what it met: store, clear, balance and signals |
| `TopupLaws.StopsExactlyWhen` | services/topup/src/index.ts:390-401 | When a shutdown is requested in a cycle: at which awaits a signal counts, and which aborted polls |
| `TopupLaws.BridgeEnds` | services/topup/src/bridge.ts:94-140 | How the bridge of a cycle ends, in the answers of the portal, with at most three calls |
| `TopupLaws.LeftExactlyAs` | services/topup/src/index.ts:290-330 | Which record a cycle leaves stored, for every failure of write and clear |
| `TopupLaws.CountedExactlyAs` | services/topup/src/ops.ts:74-76 | Which of the counters a cycle raises, each by one |
| `TopupLaws.HistoryIs` | services/topup/src/index.ts:507-523 | Over a whole life of the service each cycle runs on what the one before left, bridges are numbered in turn, and each counter grows by the number of cycles that count it |
| `Pricing.ChargeIsLeastCover` | services/attestation/src/server.ts:305-316 | The charge is the least amount that covers rate and margin, so the margin holds and the overcharge is under one unit |
| `Pricing.ChargeMonotone` | services/attestation/src/config.ts:572-579 | More Fee Juice, rate or margin never costs less |
| `Pricing.ChargeAntitone` | services/attestation/src/config.ts:572-579 | A larger denominator never costs more |
| `Pricing.ChargeScaleInvariant` | services/attestation/src/config.ts:572-579 | Scaling the fraction changes nothing |
| `Pricing.ChargeSplit` | services/attestation/src/server.ts:57-59 | Splitting an amount never lowers the total and raises it by at most one |
| `Pricing.RefusedExactlyOutOfRange` | services/attestation/src/server.ts:311-327 | No price exactly for no Fee Juice or a charge above 2^128 - 1 |
| `Wire.TrimDrops` | services/attestation/src/request-schemas.ts:39 | Trimming takes blanks off both ends and leaves none there |
| `Wire.TrimEmptiesBlanks` | services/attestation/src/request-schemas.ts:39 | Nothing is left exactly of a text of blanks |
| `Wire.SpacesAre` | services/attestation/src/request-schemas.ts:39 | Which characters count as blanks |
| `Wire.WrittenIsParsed` | services/attestation/src/request-schemas.ts:34-51 | Every text of up to 39 digits, leading zeros and outer blanks included, is read as the number it writes |
| `Wire.ParsedIsWritten` | services/attestation/src/request-schemas.ts:34-51 | Nothing else is accepted, and what is accepted is between 1 and 2^128 - 1 |
| `Wire.AmountRoundTrip` | sdk/src/payment-method.ts:203-205 | What the client prints is accepted exactly for 1 to 2^128 - 1, and read as printed |
| `Wire.BigIntRoundTrip` | sdk/src/payment-method.ts:310-312 | The client reads back every integer the service prints |
| `Wire.BigIntReadsExactly` | sdk/src/payment-method.ts:310-312 | Exactly which texts the client reads as which integer; all others throw |
| `Wire.SignatureRoundTrip` | services/attestation/src/index.ts:93-96 | The client recovers exactly the signature bytes the service sent |
| `Wire.HexTextAt` | services/attestation/src/index.ts:93-96 | Each byte is written as its high and its low hex digit, in lower case, behind the prefix |
| `Wire.HexDecodesExactly` | sdk/src/payment-method.ts:313 | Exactly which bytes any text decodes to |
| `Addresses.Codec.NormaliseSettles` | services/attestation/src/config.ts:441-447 | Normalising an address again changes nothing |
| `Quotes.QuotePreimageInjective` | services/attestation/src/signer.ts:60-70 | A signed list names one quote |
| `Quotes.ColdStartPreimageInjective` | services/attestation/src/signer.ts:118-130 | A signed cold-start list names one cold-start quote |
| `Quotes.ColdStartIsSeparate` | services/attestation/src/signer.ts:22-26 | A cold-start list is never one of a rate or an amount quote |
| `Quotes.RateReadsAsAmounts` | services/attestation/src/signer.ts:60-82 | A rate list equals an amount list exactly if the rate reads as the amounts and the rest agrees |
| `Quotes.GasAmountsAgree` | sdk/src/payment-method.ts:304-308 | Limits times prices: client and contract compute the same fee exactly where it fits in 128 bits |
| `Quotes.ContractRebuilds` | contracts/fpc/src/main.nr:262-270 | The contract's list is the operator's list of the quote the arguments describe |
| `Quotes.SignedCallPasses` | contracts/fpc/src/main.nr:252-281 | A call with a genuine signature passes exactly in the time window, at the quoted fee, where the signed list is rebuilt |
| `Quotes.SignedColdStartPasses` | contracts/fpc/src/main.nr:177-207 | A cold-start call with a genuine signature passes exactly in the time window, at the quoted fee, with a claim that covers the payment, where the signed list is rebuilt |
| `QuoteRoutes.HandleQuote` | services/attestation/src/server.ts:596-682 | The route answers the decision function, which `QuoteLaws` says in full, and observes exactly the outcome it answers, once, with the time it took; nothing if the clock throws |
| `QuoteRoutes.HandleColdStartQuote` | services/attestation/src/server.ts:896-995 | The same for the cold-start route |
| `QuoteLaws.RequestIsRead` | services/attestation/src/server.ts:242-300 | Which texts of a request are read, with blanks and leading zeros, and as what |
| `QuoteLaws.QuoteAnswers` | services/attestation/src/server.ts:596-682 | Every readable request, in either format: refused exactly for a charge above 2^128 - 1, broken exactly where a signed number is no field element or signing throws, else issued with these texts and the signature on the list written out |
| `QuoteLaws.UnaskedIsRefused` | services/attestation/src/server.ts:613-617 | An authorised request that names no user, asset with a policy, and amount is refused |
| `QuoteLaws.QuotedExactlyWhen` | services/attestation/src/server.ts:618-670 | A client gets a quote exactly if its request can be priced, the signed numbers are field elements and the operator signs |
| `QuoteLaws.ColdStartAnswers` | services/attestation/src/server.ts:896-995 | Every readable cold-start request: refused exactly for a charge above 2^128 - 1 or above the claim, broken or issued likewise |
| `QuoteLaws.UnaskedColdStartIsRefused` | services/attestation/src/server.ts:910-935 | One that is not readable is refused |
| `QuoteRoutes.ClientRequestIsRead` | services/attestation/src/server.ts:242-266 | A client's request is read as meant exactly where user, asset, amount and policy are usable |
| `QuoteRoutes.ResponseIsRead` | services/attestation/src/server.ts:364-389 | The client reads back amount, expiry and signature bytes of the response |
| `QuoteRoutes.PricedExactlyWhen` | services/attestation/src/server.ts:305-327 | When a client's request is priced, and that its price is the charge of the stored policy and positive |
| `QuoteRoutes.AnsweredExactlyWhen` | services/attestation/src/server.ts:600-630 | A client's request is refused exactly where it cannot be priced |
| `QuoteRoutes.IssuedQuote` | services/attestation/src/server.ts:632-670 | What an issued quote is made of: policy, price, signed list, signature |
| `QuoteRoutes.QuotedCall` | sdk/src/payment-method.ts:75-89 | The client's entrypoint call carries the quoted numbers and the signature on the quoted list |
| `QuoteRoutes.AmountQuoteIsAccepted` | sdk/src/payment-method.ts:57-106 | End to end: the contract accepts the client's call for exactly the gas settings that cost the quoted amount and the anchor times of the quote's window |
| `QuoteRoutes.FreshQuoteUsableExactlyUnderCap` | services/attestation/src/config.ts:76 | The validity cap is exactly what makes a fresh quote usable when it is made |
| `QuoteRoutes.QuoteIsAcceptedExactlyWhen` | contracts/fpc/src/main.nr:252-281 | Only at the quoting contract, from the quoted user, in the window, at the quoted fee, and for a rate quote only if the final rate is one written with the amount; the signed list is the operator's |
| `QuoteRoutes.QuotedListRebuilt` | contracts/fpc/src/main.nr:262-270 | The contract rebuilds the operator's list exactly where everything signed agrees |
| `RateFormat.RateQuoteAtUnitRate` | services/attestation/src/signer.ts:60-82 | A concrete service in the rate format: every amount is quoted, and the contract takes exactly the quote for 10000 |
| `Pricing.ReadsAsAmountsExactlyAtPar` | services/attestation/src/server.ts:311-313 | A rate reads as an amount and its charge exactly if numerator and denominator both equal the amount |
| `QuoteRoutes.ColdStartAnsweredExactlyWhen` | services/attestation/src/server.ts:918-944 | A cold-start request is refused exactly where it cannot be priced or the claim does not cover the charge |
| `QuoteRoutes.ColdStartQuoteIsAccepted` | sdk/src/payment-method.ts:119-147 | End to end for cold start, and the claim covers the charge |
| `PolicyStore.NormalisedIsGood` | services/attestation/src/asset-policy-store.ts:17-34 | Whatever normalisation lets through is a valid policy |
| `PolicyStore.GoodIsNormal` | services/attestation/src/asset-policy-store.ts:17-34 | Normalising a valid policy changes nothing |
| `PolicyStore.RefusedExactlyFor` | services/attestation/src/asset-policy-store.ts:17-34 | A policy is refused for the first of address, name, numerator, denominator and margin that is wrong |
| `PolicyStore.TakenExactlyWhen` | services/attestation/src/asset-policy-store.ts:36-46 | A seed list is taken exactly if every policy is acceptable and no two normalise to one address |
| `PolicyStore.ResolvedSeedsUnchanged` | services/attestation/src/config.ts:472-497 | A configuration that loads seeds an empty store without error and without change |
| `PolicyStore.PutAllKeeps` | services/attestation/src/asset-policy-store.ts:64-69 | Seeding adds exactly the listed addresses and keeps every entry valid |
| `PolicyStore.ApplyKeeps` | services/attestation/src/asset-policy-store.ts:59-110 | Every operation keeps the entries valid and a filled store filled |
| `PolicyStore.RunKeeps` | services/attestation/src/asset-policy-store.ts:59-110 | So does every sequence of openings, upserts and removals |
| `PolicyStore.OnlyItsOwnOperations` | services/attestation/src/asset-policy-store.ts:59-110 | Only operations on an address change what a filled store says about it; reopening changes nothing |
| `PolicyLaws.StepExactlyAs` | services/attestation/src/asset-policy-store.ts:59-110 | After one operation a policy is held exactly if the operation stored it, or it was held and the operation removed or replaced nothing at its address |
| `PolicyLaws.HeldExactlyWhen` | services/attestation/src/asset-policy-store.ts:59-110 | After any sequence a policy is held exactly if some operation stored it, an accepted upsert or the seeding of an empty store, and none after that removed or replaced it, or it was there from the start |
| `PolicyLaws.OpenFailsExactlyAt` | services/attestation/src/asset-policy-store.ts:36-70 | Opening fails exactly on an empty store with the first policy that is refused or repeats an address |
| `PolicyStore.ReachablePoliciesPrice` | services/attestation/src/server.ts:305-316 | Pricing from a reachable policy divides by no zero and charges something for a positive amount |
| `PolicyStore.LmdbAssetPolicyStore.NormalisePolicies` | services/attestation/src/asset-policy-store.ts:36-46 | The loop with its set of seen addresses decides as the specification does, with the first error |
| `PolicyStore.LmdbAssetPolicyStore.Open` | services/attestation/src/asset-policy-store.ts:59-70 | Seeds only an empty store, and nothing at all from an unusable list |
| `PolicyStore.LmdbAssetPolicyStore.Get` | services/attestation/src/asset-policy-store.ts:72-76 | The policy stored under the address as decoded and written again, if any |
| `PolicyStore.LmdbAssetPolicyStore.GetAll` | services/attestation/src/asset-policy-store.ts:78-85 | Every policy exactly once, sorted by name |
| `PolicyStore.LmdbAssetPolicyStore.Upsert` | services/attestation/src/asset-policy-store.ts:87-91 | Accepts exactly what the store takes, stores it under its address in place of what was there, and leaves every other address alone; a refusal changes nothing |
| `PolicyStore.LmdbAssetPolicyStore.Remove` | services/attestation/src/asset-policy-store.ts:93-110 | Succeeds exactly with at least two policies, an address that decodes and a policy under it; removes and returns that one only; else which check refused, in the source's order |
| `PolicyStore.ResolveSupportedAssets` | services/attestation/src/config.ts:472-497 | The loop over the configured assets decides as the specification does |
| `PolicyLaws.ResolvedExactlyWhen` | services/attestation/src/config.ts:472-497 | A configuration is taken exactly if every address decodes and no two are the same; only the addresses change |
| `Metrics.PageIsConsistent` | services/attestation/src/metrics.ts:77-121 | On one rendered page buckets never decrease, none exceeds the +Inf count, and all totals of an outcome agree |
| `Metrics.LineMeaning` | services/attestation/src/metrics.ts:77-121 | What every rendered line counts in the history |
| `Metrics.PageHasExactly` | services/attestation/src/metrics.ts:77-121 | Exactly which lines a page has: every outcome with its requests, the ten buckets and the +Inf one, sum and count, every one but success with its errors, each once, as cardinalities over the history |
| `Metrics.TotalsAddUp` | services/attestation/src/metrics.ts:55-60 | Every observation is counted under exactly one outcome |
| `Metrics.NextBucket` | services/attestation/src/metrics.ts:104-112 | Accumulating bucket counts gives the number of durations up to each bound |
| `Metrics.AddTo` | services/attestation/src/metrics.ts:67-74 | A duration raises exactly the first bucket it fits in |
| `Metrics.RenderHistogram` | services/attestation/src/metrics.ts:104-118 | The accumulating loop renders the histogram of the history |
| `Metrics.AttestationMetrics.constructor` | services/attestation/src/metrics.ts:44-53 | The initial counters are those of an empty history |
| `Metrics.AttestationMetrics.ObserveQuote` | services/attestation/src/metrics.ts:55-75 | All counters stay those of the history, which grows by this observation |
| `Metrics.AttestationMetrics.RenderPrometheus` | services/attestation/src/metrics.ts:77-121 | The page rendered from the counters is the page of simple counts over the whole history |
| `Metrics.QuoteObserver.Observe` | services/attestation/src/server.ts:228-240 | Only the first call of an observer is recorded |
| `ColdStart.WaitForTx` | sdk/src/payment-method.ts:264-284 | Ends as the first poll that is late or no longer pending says; at most ceil(timeout / 2 s) polls |
| `ColdStart.MinedExactlyWhen` | sdk/src/payment-method.ts:264-284 | A receipt is returned exactly if some poll in time sees the transaction mined, not reverted, after pending ones |
| `ColdStart.WaitEndsExactlyAs` | sdk/src/payment-method.ts:264-284 | How the wait ends by what a poll sees: thrown, mined, reverted or dropped |
| `ColdStart.TimesOutExactlyWhen` | sdk/src/payment-method.ts:264-284 | The wait times out exactly if every poll in time sees the transaction pending |
| `ColdStart.SendWithRetries` | sdk/src/payment-method.ts:157-180 | At most three rounds of sending and waiting; a round is followed by another exactly if it is not the third and its failure names the stale anchor; the last end is returned |
| `ColdStart.SentAgainExactlyWhen` | sdk/src/payment-method.ts:173-178 | For every failure: retried exactly if a text of the wallet or the node names the stale anchor, never after a timeout |
| `ColdStart.MinedIsSentAgainExactlyWhen` | sdk/src/payment-method.ts:269-282 | A transaction seen mined is sent again exactly if it reverted and the node's result or error names the stale anchor |
| `ColdStart.MinedTransactionSentAgain` | sdk/src/payment-method.ts:278-282 | A node for which that happens |
| `ColdStart.ProveAndSendTx` | sdk/src/payment-method.ts:242-262 | A round ends with the error before the send or with the end of the wait |
| `ColdStart.WaitEndsOnce` | sdk/src/payment-method.ts:264-284 | A wait has one end |
| `L1Funding.SendWithManagedNonce` | scripts/services/fund-l1-fee-juice.ts:129-163 | At most three attempts, each after a conflict and with a fresh nonce; what each error is due to; the closing throw is unreachable |
| `L1Funding.ConflictsExactly` | scripts/services/fund-l1-fee-juice.ts:94-105 | Which error texts are nonce conflicts, letter by letter |
| `L1Funding.HealthyMintWorks` | scripts/services/fund-l1-fee-juice.ts:129-163 | On a chain that answers, takes the first attempt and mines it, a mint has nothing to fail by |
| `L1Funding.MintsNeededIsLeast` | scripts/services/fund-l1-fee-juice.ts:550 | The number of mints is the least that reaches the target, overshooting by less than one mint |
| `L1Funding.MintViaFeeAssetHandler` | scripts/services/fund-l1-fee-juice.ts:531-579 | Exactly that many mints unless something fails, every earlier one mined, each with the nonce it was sent with; a failure is that of the mint it names |
| `L1Funding.NoncesInARow` | scripts/services/fund-l1-fee-juice.ts:531-579 | Without conflicts mint k uses the first nonce plus k |

## Left out

- TopupService.Service.Serve: cycles run one after another; a timer tick that lands inside a running cycle is an event of `Protocol` only.
- Confirm.ConfirmationState.WaitForNextPoll: a sleep takes at least the time requested and the clock never runs backwards.
- ColdStart.WaitForTx: a sleep takes at least the time requested and the clock never runs backwards.
- BridgeState.BridgeStateStore.Read: a stored number is finite; NaN and infinities, which the validators refuse, are not modelled.
- Metrics.AttestationMetrics.ObserveQuote: durations and their sum are reals, so floating-point rounding is not modelled.
- PolicyStore.LmdbAssetPolicyStore.GetAll: the order among equal names is left open, and name collation is a parameter that orders.
- PolicyStore.LmdbAssetPolicyStore.Remove: operations run one after another; interleaved removals of different addresses are not modelled.
- PolicyStore.LmdbAssetPolicyStore.Upsert: rates and margins are integers, so the check that a number is an integer is not modelled.
- Wire.BigIntRoundTrip: hexadecimal, octal and binary literals are not read; the service prints none.
- TopupLedger.BridgesBoundedByLosses: the balance grows by credits of at least the threshold and is not spent, reads of it are accurate, and the entry is misread only when ill-formed.
- L1Funding.MintViaFeeAssetHandler: the balance changes only by the mints of this loop, as the termination of the loop needs.
- QuoteRoutes.HandleQuote: authorisation is a parameter, the messages of refusals are one value, and registering the sender is left out because its failure is swallowed.
- The elapsed time in a confirmation report and the timeout passed on to the node's readiness wait.
- Case folding of error text: texts are lower-case when they are classified.
- How addresses and field elements are decoded from text: a codec of which only the round trip and lower-case printing are used.
- Poseidon and Schnorr: parameters; where a theorem needs that they bind two lists it says so.
- In the contract: token transfers, the authwit, the bridge claim, nullifiers and gas phases.
- LMDB beyond one key or one map, its own errors apart from a failing read, write or clear.
- The process lock, which assumes a single daemon, the operations server and the readiness reasons.
- The wallet plumbing of the automatic claim: it is the abstract message-ready action.
- HTTP, JSON, rate limiting, logging and the text format of the metrics page.
- How the client proves a transaction and attaches contracts; a round of proving and sending is one outcome.
- The admin routes apart from the store operations they call, sweeps, and secret resolution.
- Direct minting and the choice between the minting methods in the funding script.
