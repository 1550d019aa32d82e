/**
  What one cycle of the daemon leads to, said in the fields of its script and of the configuration alone: a second
  account of the cycle (services/topup/src/reconcile.ts, checker.ts, index.ts) beside the one in `TopupScript`.
*/
module TopupLaws {
  import opened ConfirmOutcome
  import opened Outcomes
  import opened Protocol
  import opened ProtocolProperties
  import opened Reconcile
  import opened Texts
  import opened TopupLaps
  import opened TopupScript
  import BridgeRetry
  import BridgeState
  import Confirm

  // ---- The polls ----

  /** The environment of a poll in a process that may have been told to stop before it. */
  function SeenBy(e: Confirm.Environment, told: bool): Confirm.Environment {
    if told then e.(abortsAt := Some(0)) else e
  }

  /** Reconciliation read a record that is at most 24 hours old. */
  predicate Young(before: Entry, c: Cycle) {
    before.Held? && !c.misread && c.nowMs - before.record.submittedAtMs <= 24 * 60 * 60 * 1000
  }

  /** The poll for a stored record has its baseline, its message, and every configured parameter. */
  lemma SettlingPollEnds(config: Config, before: Entry, c: Cycle, lap: Lap)
    requires LapOk(config, before, c, lap) && Young(before, c)
    ensures exists out ::
              && Confirm.Ends(
                   Confirm.Options(
                     before.record.baseline, config.timeoutMs, config.initialPollMs, config.maxPollMs,
                     Some(c.settlingMessageValid), config.autoClaim),
                   SeenBy(c.settling, AfterRead in c.signals),
                   out)
              && lap.polled == if out.Finished? then Reported(out.report.status) else PollFailed
  {
    var told := AfterRead in c.signals;
    var out :| && PollsTo(config, before.record.baseline, c.settlingMessageValid, c.settling, told, out)
               && lap.polled == PolledAs(out);
    hide Confirm.Ends;
    assert Confirm.Ends(
        Confirm.Options(
          before.record.baseline, config.timeoutMs, config.initialPollMs, config.maxPollMs,
          Some(c.settlingMessageValid), config.autoClaim),
        SeenBy(c.settling, told),
        out);
  }

  /** So has the poll for a bridge that this cycle made and whose record it wrote. */
  lemma ConfirmingPollEnds(config: Config, before: Entry, c: Cycle, lap: Lap)
    requires LapOk(config, before, c, lap) && lap.started && lap.course.bridge.Ok? && c.writeFault == Works
    ensures Confirm.Ends(
              Confirm.Options(
                c.balance.value, config.timeoutMs, config.initialPollMs, config.maxPollMs,
                Some(c.confirmingMessageValid), config.autoClaim),
              SeenBy(c.confirming, InBridge in c.signals || AfterWrite in c.signals),
              lap.course.poll)
  {
    hide Confirm.Ends;
  }

  /** A record whose message is not ready stays, whatever the balance, and nothing is started over it. */
  lemma UnreadyRecordStays(config: Config, before: Entry, c: Cycle, lap: Lap)
    requires LapOk(config, before, c, lap) && Young(before, c)
    requires c.settlingMessageValid && (c.settling.settlesAfter == None || c.settling.settlesAs == Confirm.NotReady)
    ensures lap.polled != Reported(Confirmed) && lap.kept == before && !lap.started && lap.after == before
  {
    SettlingPollEnds(config, before, c, lap);
    var o := Confirm.Options(
      before.record.baseline, config.timeoutMs, config.initialPollMs, config.maxPollMs,
      Some(c.settlingMessageValid), config.autoClaim);
    var out :| && Confirm.Ends(o, SeenBy(c.settling, AfterRead in c.signals), out)
               && lap.polled == if out.Finished? then Reported(out.report.status) else PollFailed;
    UnreadyNeverConfirms(o, SeenBy(c.settling, AfterRead in c.signals), out);
    hide Confirm.Ends;
  }

  /** A new bridge whose message is not ready is not confirmed: its record stays and no confirmation is counted. */
  lemma UnreadyBridgeStays(config: Config, before: Entry, c: Cycle, lap: Lap, t: Tally)
    requires LapOk(config, before, c, lap) && lap.started && lap.course.bridge.Ok? && c.writeFault == Works
    requires c.confirmingMessageValid
    requires c.confirming.settlesAfter == None || c.confirming.settlesAs == Confirm.NotReady
    ensures lap.after != Absent && LapTally(t, c, lap).confirmed == t.confirmed
  {
    ConfirmingPollEnds(config, before, c, lap);
    var o := Confirm.Options(
      c.balance.value, config.timeoutMs, config.initialPollMs, config.maxPollMs,
      Some(c.confirmingMessageValid), config.autoClaim);
    UnreadyNeverConfirms(o, SeenBy(c.confirming, InBridge in c.signals || AfterWrite in c.signals), lap.course.poll);
    hide Confirm.Ends;
  }

  /**
    The record is found confirmed exactly if no signal came before the poll and some attempt is made by the deadline at
    which the bridge has arrived, every earlier one having gone on. `at` and `ms` are the times and intervals of the
    attempts, as many as fit.
  */
  lemma RecordConfirmedExactlyWhen(config: Config, before: Entry, c: Cycle, lap: Lap, at: seq<int>, ms: seq<int>)
    requires ValidConfig(config) && LapOk(config, before, c, lap) && Young(before, c)
    requires var o := Confirm.Options(
               before.record.baseline, config.timeoutMs, config.initialPollMs, config.maxPollMs,
               Some(c.settlingMessageValid), config.autoClaim);
             Passes(o, c.settling, at, ms) && (|at| - 2) * config.initialPollMs >= config.timeoutMs
    ensures var o := Confirm.Options(
              before.record.baseline, config.timeoutMs, config.initialPollMs, config.maxPollMs,
              Some(c.settlingMessageValid), config.autoClaim);
            lap.polled == Reported(Confirmed) <==>
              && AfterRead !in c.signals
              && exists k :: 0 <= k < |at| && ConfirmedAfter(o, c.settling, at, k)
  {
    var o := Confirm.Options(
      before.record.baseline, config.timeoutMs, config.initialPollMs, config.maxPollMs,
      Some(c.settlingMessageValid), config.autoClaim);
    SettlingPollEnds(config, before, c, lap);
    var out :| && Confirm.Ends(o, SeenBy(c.settling, AfterRead in c.signals), out)
               && lap.polled == if out.Finished? then Reported(out.report.status) else PollFailed;
    hide LapOk, Confirm.Ends;
    PollConfirmsExactlyWhen(o, c.settling, AfterRead in c.signals, out, at, ms);
  }

  lemma PollConfirmsExactlyWhen(o: Confirm.Options, e: Confirm.Environment, told: bool, out: Confirm.Outcome,
                                at: seq<int>, ms: seq<int>)
    requires 1 <= o.initialPollMs <= o.maxPollMs <= o.timeoutMs && Confirm.Ends(o, SeenBy(e, told), out)
    requires Passes(o, e, at, ms) && (|at| - 2) * o.initialPollMs >= o.timeoutMs
    ensures AttemptsOf(out) < |at|
    ensures out.Finished? && out.report.status == Confirmed <==>
              !told && exists k :: 0 <= k < |at| && ConfirmedAfter(o, e, at, k)
  {
    hide Confirm.Ends;
    var seen := SeenBy(e, told);
    AttemptsFit(o, seen, out);
    FewerAttempts(o, AttemptsOf(out), |at|);
    assert Passes(o, seen, at, ms);
    EndsExactlyAs(o, seen, out, at, ms, AttemptsOf(out));
    if told {
      EndsExactlyAs(o, seen, out, at, ms, 0);
    } else {
      forall k | 0 <= k < |at| ensures ConfirmedAfter(o, e, at, k) ==> out.Finished? && out.report.status == Confirmed {
        EndsExactlyAs(o, e, out, at, ms, k);
      }
    }
  }

  lemma FewerAttempts(o: Confirm.Options, made: nat, n: nat)
    requires (made - 2) * o.initialPollMs < o.timeoutMs <= (n - 2) * o.initialPollMs
    ensures made < n
  {
    assert made >= n ==> (made - 2) * o.initialPollMs >= (n - 2) * o.initialPollMs;
  }

  /** The new bridge is confirmed under the same condition, on its own baseline and timeline. */
  lemma BridgeConfirmedExactlyWhen(config: Config, before: Entry, c: Cycle, lap: Lap, at: seq<int>, ms: seq<int>)
    requires ValidConfig(config) && LapOk(config, before, c, lap)
    requires lap.started && lap.course.bridge.Ok? && c.writeFault == Works
    requires var o := Confirm.Options(
               c.balance.value, config.timeoutMs, config.initialPollMs, config.maxPollMs,
               Some(c.confirmingMessageValid), config.autoClaim);
             Passes(o, c.confirming, at, ms) && (|at| - 2) * config.initialPollMs >= config.timeoutMs
    ensures var o := Confirm.Options(
              c.balance.value, config.timeoutMs, config.initialPollMs, config.maxPollMs,
              Some(c.confirmingMessageValid), config.autoClaim);
            lap.course.poll.Finished? && lap.course.poll.report.status == Confirmed <==>
              && InBridge !in c.signals && AfterWrite !in c.signals
              && exists k :: 0 <= k < |at| && ConfirmedAfter(o, c.confirming, at, k)
  {
    var o := Confirm.Options(
      c.balance.value, config.timeoutMs, config.initialPollMs, config.maxPollMs,
      Some(c.confirmingMessageValid), config.autoClaim);
    ConfirmingPollEnds(config, before, c, lap);
    hide LapOk, Confirm.Ends;
    PollConfirmsExactlyWhen(
      o, c.confirming, InBridge in c.signals || AfterWrite in c.signals, lap.course.poll, at, ms);
  }

  /** The readiness check of a valid hash answers "ready" before await point `q`. */
  predicate ReadyBefore(e: Confirm.Environment, q: int) {
    e.settlesAfter.Some? && e.settlesAfter.value < q && e.settlesAs == Confirm.Ready
  }

  /**
    The poll for a new bridge compares with the balance that started it, makes no more attempts than the timeout allows,
    and runs the claim action exactly if the daemon is configured to and some attempt finds the message ready.
  */
  lemma NewPollReported(config: Config, before: Entry, c: Cycle, lap: Lap)
    requires ValidConfig(config) && LapOk(config, before, c, lap)
    requires lap.started && lap.course.bridge.Ok? && c.writeFault == Works
    ensures (AttemptsOf(lap.course.poll) - 2) * config.initialPollMs < config.timeoutMs
    ensures lap.course.poll.Finished? ==>
              var r := lap.course.poll.report;
              && r.baseline == c.balance.value
              && (r.actionAttempted <==>
                    && config.autoClaim && c.confirmingMessageValid
                    && exists j: nat :: j < r.attempts && ReadyBefore(c.confirming, 6 * j + 1))
  {
    var o := Confirm.Options(
      c.balance.value, config.timeoutMs, config.initialPollMs, config.maxPollMs,
      Some(c.confirmingMessageValid), config.autoClaim);
    var e := SeenBy(c.confirming, InBridge in c.signals || AfterWrite in c.signals);
    ConfirmingPollEnds(config, before, c, lap);
    hide LapOk, Confirm.Ends;
    AttemptsFit(o, e, lap.course.poll);
    if lap.course.poll.Finished? {
      ReadsReported(o, e, lap.course.poll, 0);
      ActionReported(o, e, lap.course.poll, 0);
      assert forall j: nat ::
          Answered(o, e, 6 * j + 1, Confirm.Ready) <==>
          c.confirmingMessageValid && ReadyBefore(c.confirming, 6 * j + 1);
    }
  }

  // ---- The stored record ----

  /** Reconciliation clears what is stored: the read threw, the record is old, or the poll for it confirmed it. */
  predicate ClearsStored(before: Entry, c: Cycle, polled: Polled) {
    || c.misread || before.Junk?
    || (before.Held? && c.nowMs - before.record.submittedAtMs > 24 * 60 * 60 * 1000)
    || (Young(before, c) && polled == Reported(Confirmed))
  }

  /** What is stored stays unless reconciliation clears it and the clear takes effect. */
  lemma KeptExactlyWhen(config: Config, before: Entry, c: Cycle, lap: Lap)
    requires LapOk(config, before, c, lap)
    ensures lap.kept == if ClearsStored(before, c, lap.polled) && c.clearFault != FailsBefore then Absent else before
  {
  }

  /**
    A bridge is started exactly if nothing is stored, the read threw, or the record went for its age or its
    confirmation, and then the balance is below the threshold and no signal came at any await on the way.
  */
  lemma StartedExactlyWhen(config: Config, before: Entry, c: Cycle, lap: Lap)
    requires LapOk(config, before, c, lap)
    ensures lap.started <==>
              && (before.Held? && !c.misread ==> ClearsStored(before, c, lap.polled) && c.clearFault == Works)
              && c.balance.Some? && c.balance.value < config.threshold
              && AfterRead !in c.signals && AfterBalance !in c.signals
              && (Young(before, c) ==> InPoll !in c.signals)
              && (ClearsStored(before, c, lap.polled) ==> AfterClear !in c.signals)
  {
  }

  /** The poll for the new bridge confirmed it. */
  predicate Succeeds(c: Cycle, lap: Lap) {
    && lap.started && lap.course.bridge.Ok? && c.writeFault == Works
    && lap.course.poll.Finished? && lap.course.poll.report.status == Confirmed
  }

  /** A shutdown is requested exactly if a signal comes at an await that the cycle reaches or a poll ends aborted. */
  lemma StopsExactlyWhen(config: Config, before: Entry, c: Cycle, lap: Lap)
    requires LapOk(config, before, c, lap)
    ensures var cleared := ClearsStored(before, c, lap.polled);
            var saved := lap.started && lap.course.bridge.Ok? && c.writeFault == Works;
            lap.stops <==>
              || AfterRead in c.signals
              || (cleared && AfterClear in c.signals)
              || (Young(before, c) && (InPoll in c.signals || lap.polled == Reported(Aborted)))
              || ((before.Held? && !c.misread ==> cleared && c.clearFault == Works) && AfterBalance in c.signals)
              || (lap.started && InBridge in c.signals)
              || (lap.started && lap.course.bridge.Ok? && AfterWrite in c.signals)
              || (saved && InConfirm in c.signals)
              || (saved && lap.course.poll.Finished? && lap.course.poll.report.status == Aborted)
              || (Succeeds(c, lap) && AfterSettle in c.signals)
  {
  }

  // ---- The new bridge ----

  /** The portal refused in a way that another try may cure. */
  predicate Conflict(call: BridgeRetry.PortalCall<Claim>) {
    && call.Rejected? && !Contains(call.text, "nonce too low")
    && (|| Contains(call.text, "replacementnotallowed")
        || Contains(call.text, "replacement not allowed")
        || Contains(call.text, "already known"))
  }

  /** How the bridge ends with `calls` portal calls. */
  predicate BridgeEndsAfter(config: Config, c: Cycle, calls: nat, bridge: Result<Claim, BridgeRetry.Failure>) {
    if config.targetIsZero then bridge == Err(BridgeRetry.ZeroAddress) && calls == 0
    else if config.topUpAmount <= 0 then bridge == Err(BridgeRetry.NonPositiveAmount) && calls == 0
    else if c.setupFails then bridge == Err(BridgeRetry.SetupFailed) && calls == 0
    else
      && 1 <= calls <= 3
      && (forall j: nat | j < calls - 1 :: Conflict(c.portal(j)))
      && match c.portal(calls - 1)
         case Claimed(claim) => bridge == Ok(claim)
         case Rejected(text) =>
           && (calls == 3 || !Conflict(c.portal(calls - 1)))
           && bridge == Err(if Contains(text, "nonce too low") then BridgeRetry.NonceTooLow(text)
                            else BridgeRetry.Portal(text))
  }

  lemma BridgeEnds(config: Config, before: Entry, c: Cycle, lap: Lap)
    requires LapOk(config, before, c, lap) && lap.started
    ensures exists calls: nat :: BridgeEndsAfter(config, c, calls, lap.course.bridge)
  {
    var calls: nat :| BridgeRetry.Concludes(
      config.targetIsZero, config.topUpAmount, c.setupFails, 3, c.portal, lap.course.bridge, calls);
    BridgeRetry.ReturnsExactly(
      config.targetIsZero, config.topUpAmount, c.setupFails, 3, c.portal, lap.course.bridge, calls);
    hide LapOk, Contains;
    assert BridgeEndsAfter(config, c, calls, lap.course.bridge);
  }

  /** What the bridge leaves: its own record, ill-formed if the portal's claim is, until it is confirmed and cleared. */
  lemma LeftExactlyAs(config: Config, before: Entry, c: Cycle, lap: Lap)
    requires LapOk(config, before, c, lap)
    ensures lap.after ==
            if !lap.started || lap.course.bridge.Err? || c.writeFault == FailsBefore then lap.kept
            else if Succeeds(c, lap) && c.settleFault != FailsBefore then Absent
            else
              var claim := lap.course.bridge.value;
              if && c.balance.value >= 0 && claim.amount > 0 && claim.leafIndex >= 0 && c.bridgedAtMs >= 0
                 && BridgeState.IsFieldHex(claim.secret) && BridgeState.IsFieldHex(claim.secretHash)
                 && BridgeState.IsFieldHex(claim.messageHash)
              then Held(Protocol.Record(lap.id, c.balance.value, c.bridgedAtMs))
              else Junk
  {
    hide BridgeState.IsFieldHex, Follows, SettlesIfPolled;
  }

  // ---- The counters ----

  /** The cycle counts one of these: a bridge started, returned, ended by its poll with this status, or failed. */
  predicate Counts(kind: Kind, c: Cycle, lap: Lap) {
    && lap.started
    && match kind
       case Starts => true
       case Submits => lap.course.bridge.Ok?
       case Ends(status) =>
         && lap.course.bridge.Ok? && c.writeFault == Works
         && lap.course.poll.Finished? && lap.course.poll.report.status == status
       case Fails => lap.course.bridge.Err? || c.writeFault != Works || lap.course.poll.NeverRead?
  }

  lemma CountedExactlyAs(t: Tally, c: Cycle, lap: Lap)
    ensures var t' := LapTally(t, c, lap);
            && t'.started == t.started + (if Counts(Starts, c, lap) then 1 else 0)
            && t'.submitted == t.submitted + (if Counts(Submits, c, lap) then 1 else 0)
            && t'.confirmed == t.confirmed + (if Counts(Ends(Confirmed), c, lap) then 1 else 0)
            && t'.timeout == t.timeout + (if Counts(Ends(Timeout), c, lap) then 1 else 0)
            && t'.aborted == t.aborted + (if Counts(Ends(Aborted), c, lap) then 1 else 0)
            && t'.failed == t.failed + (if Counts(Fails, c, lap) then 1 else 0)
  {
  }

  function CountingLaps(kind: Kind, cycles: seq<Cycle>, laps: seq<Lap>): set<nat>
    requires |laps| <= |cycles|
  {
    set k: nat | k < |laps| && Counts(kind, cycles[k], laps[k])
  }

  lemma OneMoreLap(kind: Kind, cycles: seq<Cycle>, laps: seq<Lap>)
    requires 0 < |laps| <= |cycles|
    ensures var n := |laps| - 1;
            |CountingLaps(kind, cycles, laps)| ==
            |CountingLaps(kind, cycles, laps[..n])| + if Counts(kind, cycles[n], laps[n]) then 1 else 0
  {
    var n := |laps| - 1;
    hide Counts;
    assert CountingLaps(kind, cycles, laps) ==
           CountingLaps(kind, cycles, laps[..n]) + if Counts(kind, cycles[n], laps[n]) then {n} else {};
  }

  lemma {:induction false} TalliedIs(t: Tally, cycles: seq<Cycle>, laps: seq<Lap>)
    requires |laps| <= |cycles|
    ensures var t' := Tallied(t, cycles, laps);
            && t'.started == t.started + |CountingLaps(Starts, cycles, laps)|
            && t'.submitted == t.submitted + |CountingLaps(Submits, cycles, laps)|
            && t'.confirmed == t.confirmed + |CountingLaps(Ends(Confirmed), cycles, laps)|
            && t'.timeout == t.timeout + |CountingLaps(Ends(Timeout), cycles, laps)|
            && t'.aborted == t.aborted + |CountingLaps(Ends(Aborted), cycles, laps)|
            && t'.failed == t.failed + |CountingLaps(Fails, cycles, laps)|
  {
    if laps != [] {
      var n := |laps| - 1;
      hide Counts, LapTally, CountingLaps;
      TalliedIs(t, cycles, laps[..n]);
      CountedExactlyAs(Tallied(t, cycles, laps[..n]), cycles[n], laps[n]);
      OneMoreLap(Starts, cycles, laps);
      OneMoreLap(Submits, cycles, laps);
      OneMoreLap(Ends(Confirmed), cycles, laps);
      OneMoreLap(Ends(Timeout), cycles, laps);
      OneMoreLap(Ends(Aborted), cycles, laps);
      OneMoreLap(Fails, cycles, laps);
    }
  }

  /**
    The cycles of a service in a row: each runs on what the one before it left, every bridge that returned takes the
    next number, and each counter grows by the number of cycles that count it.
  */
  lemma HistoryIs(config: Config, from: State, cycles: seq<Cycle>, laps: seq<Lap>, to: State, k: nat)
    requires Leads(config, from, cycles, laps, to) && k < |laps|
    ensures LapOk(config, if k == 0 then from.store.entry else laps[k - 1].after, cycles[k], laps[k])
    ensures laps[k].id == if k == 0 then |from.store.calls|
                          else laps[k - 1].id + if Counts(Submits, cycles[k - 1], laps[k - 1]) then 1 else 0
    ensures to.store.entry == laps[|laps| - 1].after
    ensures to.tally.started == from.tally.started + |CountingLaps(Starts, cycles, laps)|
    ensures to.tally.submitted == from.tally.submitted + |CountingLaps(Submits, cycles, laps)|
    ensures to.tally.confirmed == from.tally.confirmed + |CountingLaps(Ends(Confirmed), cycles, laps)|
    ensures to.tally.timeout == from.tally.timeout + |CountingLaps(Ends(Timeout), cycles, laps)|
    ensures to.tally.aborted == from.tally.aborted + |CountingLaps(Ends(Aborted), cycles, laps)|
    ensures to.tally.failed == from.tally.failed + |CountingLaps(Fails, cycles, laps)|
  {
    hide LapOk, CountingLaps, Tallied;
    TalliedIs(from.tally, cycles, laps);
  }
}
