/**
  What one cycle of the top-up daemon meets and what that makes of it: the script of a cycle, and the counters, the
  stored entry and the abort flag that the script leads to.
*/
module TopupScript {
  import opened Outcomes
  import opened Protocol
  import opened Reconcile
  import BridgeRetry
  import BridgeState
  import Confirm

  /** What the L1 portal hands back for a deposit. */
  datatype Claim = Claim(amount: int, secret: string, secretHash: string, messageHash: string, leafIndex: int)

  /** The await points of a cycle at which a shutdown signal may arrive. */
  datatype AwaitPoint = AfterRead | AfterClear | InPoll | AfterBalance | InBridge | AfterWrite | InConfirm | AfterSettle

  /** What the world does during one cycle. */
  datatype Cycle = Cycle(
    nowMs: int,
    misread: bool,
    clearFault: Fault,
    settling: Confirm.Environment,
    settlingMessageValid: bool,
    balance: Option<int>,
    setupFails: bool,
    portal: nat -> BridgeRetry.PortalCall<Claim>,
    bridgedAtMs: int,
    writeFault: Fault,
    confirming: Confirm.Environment,
    confirmingMessageValid: bool,
    settleFault: Fault,
    signals: set<AwaitPoint>)

  /** The polling parameters and the rest of the configuration the daemon uses. */
  datatype Config = Config(
    threshold: int, topUpAmount: int, targetIsZero: bool,
    timeoutMs: nat, initialPollMs: nat, maxPollMs: nat, autoClaim: bool)

  predicate ValidConfig(c: Config) {
    && 0 < c.threshold <= c.topUpAmount
    && 1 <= c.initialPollMs <= c.maxPollMs <= c.timeoutMs
  }

  function PollOptions(c: Config, baseline: int, messageValid: bool): Confirm.Options {
    Confirm.Options(baseline, c.timeoutMs, c.initialPollMs, c.maxPollMs, Some(messageValid), c.autoClaim)
  }

  function Built(claim: Claim, atMs: int): BridgeState.BridgeResult {
    BridgeState.BridgeResult(
      claim.amount, claim.secret, claim.secretHash, claim.messageHash, claim.leafIndex, atMs as real)
  }

  /** How a bridge that a cycle starts goes on: what the call returns and, if it is reached, how the poll ends. */
  datatype Course = Course(bridge: Result<Claim, BridgeRetry.Failure>, poll: Confirm.Outcome)

  /** A poll ends as its environment prescribes, at once where the abort signal had fired before it. */
  ghost predicate PollsTo(config: Config, baseline: int, messageValid: bool, e: Confirm.Environment, fired: bool,
                          out: Confirm.Outcome)
  {
    Confirm.Ends(PollOptions(config, baseline, messageValid), if fired then e.(abortsAt := Some(0)) else e, out)
  }

  predicate PollAborts(out: Confirm.Outcome) {
    out.Finished? && out.report.status == Aborted
  }

  function PolledAs(out: Confirm.Outcome): Polled {
    if out.Finished? then Reported(out.report.status) else PollFailed
  }

  /** The reconciliation poll for a record with this baseline ends like this. */
  ghost predicate Settles(config: Config, baseline: int, c: Cycle, polled: Polled) {
    exists out ::
      && PollsTo(config, baseline, c.settlingMessageValid, c.settling, AfterRead in c.signals, out)
      && polled == PolledAs(out)
  }

  /** Reconciliation finds a record young enough to poll for. */
  predicate PollsFor(entry: Entry, c: Cycle) {
    entry.Held? && !c.misread && c.nowMs - entry.record.submittedAtMs <= RECONCILIATION_MAX_AGE_MS
  }

  /** If reconciliation polls for the stored record, its poll ends like this. */
  ghost predicate SettlesIfPolled(config: Config, entry: Entry, c: Cycle, polled: Polled) {
    PollsFor(entry, c) ==> Settles(config, entry.record.baseline, c, polled)
  }

  /** Reconciliation clears the entry: the read threw, the record is old, or its poll confirmed it. */
  predicate Clears(entry: Entry, c: Cycle, polled: Polled) {
    c.misread || entry.Junk? || (entry.Held? && (PollsFor(entry, c) ==> polled == Reported(Confirmed)))
  }

  /** A signal arrives while this entry is reconciled, or the poll for it is aborted. */
  predicate StopsReconciling(entry: Entry, c: Cycle, polled: Polled) {
    || AfterRead in c.signals
    || (Clears(entry, c, polled) && AfterClear in c.signals)
    || (PollsFor(entry, c) && (InPoll in c.signals || polled == Reported(Aborted)))
  }

  ghost predicate BridgesTo(config: Config, c: Cycle, bridge: Result<Claim, BridgeRetry.Failure>) {
    exists calls :: BridgeRetry.Concludes(config.targetIsZero, config.topUpAmount, c.setupFails,
                                          BridgeRetry.MAX_NONCE_RETRY_ATTEMPTS, c.portal, bridge, calls)
  }

  /** The script makes the bridge go this way. */
  ghost predicate Follows(config: Config, c: Cycle, baseline: int, course: Course) {
    && BridgesTo(config, c, course.bridge)
    && (Reaches(c, course) ==>
          PollsTo(config, baseline, c.confirmingMessageValid, c.confirming,
                  InBridge in c.signals || AfterWrite in c.signals, course.poll))
  }

  /** A signal arrives during the bridge, or its confirmation is aborted. */
  predicate StopsBridging(c: Cycle, course: Course) {
    || InBridge in c.signals
    || (course.bridge.Ok? && AfterWrite in c.signals)
    || (Reaches(c, course) && StopsConfirming(c, course.poll))
  }

  predicate StopsConfirming(c: Cycle, out: Confirm.Outcome) {
    || PollAborts(out)
    || InConfirm in c.signals
    || (out.Finished? && out.report.status == Confirmed && AfterSettle in c.signals)
  }

  /** The bridge resolved and its record was written: the poll is reached. */
  predicate Reaches(c: Cycle, course: Course) {
    course.bridge.Ok? && c.writeFault.Works?
  }

  /** What the entry is after the bridge's record was written, if it resolved. */
  ghost function EntryWritten(entry: Entry, r: Record, c: Cycle, claim: Claim): Entry {
    if c.writeFault.FailsBefore? then entry
    else if BridgeState.WellFormed(r.baseline, Built(claim, r.submittedAtMs)) then Held(r)
    else Junk
  }

  /** What the entry is after the poll. */
  ghost function EntrySettled(entry: Entry, c: Cycle, out: Confirm.Outcome): Entry {
    if out.Finished? && out.report.status == Confirmed then Cleaned(entry, c.settleFault) else entry
  }

  /** What a bridge that numbers as `r` leaves in the store. */
  ghost function EntryAfter(entry: Entry, r: Record, c: Cycle, course: Course): Entry {
    if course.bridge.Err? then entry
    else
      var written := EntryWritten(entry, r, c, course.bridge.value);
      if c.writeFault.Works? then EntrySettled(written, c, course.poll) else written
  }

  /** The counters after a bridge that was started: submitted if it resolved, and one of the four ends. */
  ghost function TallyAfter(t: Tally, c: Cycle, course: Course): Tally {
    var t' := if course.bridge.Ok? then t.(submitted := t.submitted + 1) else t;
    if Reaches(c, course) && course.poll.Finished? then CountStatus(t', course.poll.report.status)
    else t'.(failed := t'.failed + 1)
  }

  // ---- Whole cycles ----

  /**
    One cycle that ran: how its polls and its bridge went, the entry after reconciliation, whether a bridge call was
    started, the number it has if it resolves, the entry after the cycle, and whether a shutdown was requested in it.
  */
  datatype Lap = Lap(polled: Polled, course: Course, id: nat, kept: Entry, started: bool, after: Entry, stops: bool) {
    function NextId(): nat {
      if started && course.bridge.Ok? then id + 1 else id
    }
  }

  predicate LowBalance(config: Config, c: Cycle) {
    c.balance.Some? && c.balance.value < config.threshold
  }

  /** The lap that the script of a cycle leads to from the stored entry `before`, in a process not yet stopping. */
  ghost predicate LapOk(config: Config, before: Entry, c: Cycle, lap: Lap) {
    var (outcome, kept) := Reconciliation(before, c.nowMs, c.misread, c.clearFault, lap.polled);
    var stopped := StopsReconciling(before, c, lap.polled);
    && SettlesIfPolled(config, before, c, lap.polled)
    && lap.kept == kept
    && lap.started == (Admits(outcome) && !stopped && AfterBalance !in c.signals && LowBalance(config, c))
    && (if lap.started then
          && Follows(config, c, c.balance.value, lap.course)
          && lap.after == EntryAfter(kept, Record(lap.id, c.balance.value, c.bridgedAtMs), c, lap.course)
        else lap.after == kept)
    && lap.stops == (
         || stopped
         || (Admits(outcome) && AfterBalance in c.signals)
         || (lap.started && StopsBridging(c, lap.course)))
  }

  /** The counters after a cycle. */
  ghost function LapTally(t: Tally, c: Cycle, lap: Lap): Tally {
    if lap.started then TallyAfter(t.(started := t.started + 1), c, lap.course) else t
  }
}
