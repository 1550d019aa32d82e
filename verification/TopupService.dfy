/**
  The top-up daemon on its own fields: cycle runner, reconciliation, checker, bridge hooks and shutdown handler
  (services/topup/src/index.ts, reconcile.ts, checker.ts, ops.ts).

  A cycle runs to its end in one call; what the world does at each await is in its `Cycle` script, including whether a
  shutdown signal arrives there. Every step is logged as a protocol event and the fields are proved to mirror the
  protocol state the log leads to, so each theorem about runs of the protocol holds of the fields at every await.
*/
module TopupService {
  import opened Outcomes
  import opened Protocol
  import opened ProtocolSafety
  import opened Reconcile
  import opened TopupLaps
  import opened TopupScript
  import BridgeRetry
  import BridgeState
  import Decimal
  import Confirm
  import ConfirmProperties
  import ProtocolProperties

  /** The protocol entry that stands for what the database holds. */
  ghost predicate Mirrors(entry: Entry, stored: Option<BridgeState.Entry>) {
    match entry
    case Absent => stored.None?
    case Junk => stored.Some? && BridgeState.Validate(stored.value).None?
    case Held(r) =>
      && stored.Some? && BridgeState.Validate(stored.value).Some?
      && var s := BridgeState.Validate(stored.value).value;
         && Decimal.Canonical(s.baselineBalance)
         && r.baseline == BridgeState.Uint(s.baselineBalance)
         && r.submittedAtMs == s.submittedAtMs
  }

  /** Every database can be taken over: its record, if it holds one, counts as one saved bridge call. */
  ghost function Adopted(stored: Option<BridgeState.Entry>): (kept: Store)
    ensures Mirrors(kept.entry, stored) && Inv(Process(kept, true))
  {
    match stored
    case None => Store(Absent, [])
    case Some(raw) =>
      if BridgeState.Validate(raw).None? then Store(Junk, [])
      else
        var s := BridgeState.Validate(raw).value;
        Store(Held(Record(0, BridgeState.Uint(s.baselineBalance), s.submittedAtMs)), [Saved])
  }

  lemma DelaysAre(calls: nat)
    requires calls <= 3
    ensures (if calls == 0 then 0 else BridgeRetry.RETRY_BASE_DELAY_MS * (BridgeRetry.Pow2(calls - 1) - 1)) ==
            if calls <= 1 then 0 else if calls == 2 then 2000 else 6000
  {
    assert BridgeRetry.Pow2(0) == 1 && BridgeRetry.Pow2(1) == 2 && BridgeRetry.Pow2(2) == 4;
  }

  lemma StaysUp(threshold: int, s: State, e: Event)
    requires s.up && e != Exit && Next(threshold, s, e).Some?
    ensures Next(threshold, s, e).value.up && e != Start
  {
  }

  /** An exception thrown at `pc` that the checker catches as a bridge failure. */
  ghost predicate Throws(pc: Pc, error: Action) {
    || (pc.Bridging? && error == BridgeThrew)
    || (pc.Saving? && error == Fail)
    || (pc.Polling? && error == PollThrew)
  }

  lemma IdleBetweenCycles(s: State)
    requires Inv(s) && s.bodies == []
    ensures !s.loop.inFlight && !s.loop.draining
  {
  }

  /** The database is open while a cycle runs. */
  lemma OpenWhileRunning(s: State)
    requires Inv(s) && s.bodies != []
    ensures !s.loop.dbClosed
  {
  }

  class Service {
    const config: Config
    const store: BridgeState.BridgeStateStore
    ghost const origin: State

    // Cycle runner and shutdown handler.
    var inFlight: bool
    var aborted: bool
    var draining: bool
    // Checker.
    var bridgeInFlight: bool
    var stopping: bool
    // Event counters.
    var submitted: nat
    var confirmed: nat
    var timeout: nat
    var abortedCount: nat
    var failed: nat

    ghost var started: nat
    ghost var ticks: nat   // calls of the cycle runner
    ghost var model: State
    ghost var log: seq<Event>

    /** The log is a run of the protocol that leads from the start of this process to `model`. */
    ghost predicate Logged()
      reads this`model, this`log
    {
      && Run(config.threshold, origin, log) == Some(model) && Inv(model) && model.up
      && origin == Process(origin.store, true) && Inv(origin) && Exit !in log && Start !in log
    }

    /** The fields and the database mirror the protocol state. */
    ghost predicate Valid()
      reads this, store.db
    {
      && Logged()
      && ValidConfig(config)
      && Mirrors(model.store.entry, store.db.entry)
      && model.loop == Loop(inFlight, stopping, aborted, draining, store.db.closed)
      && stopping == aborted
      && model.bridgeInFlight == bridgeInFlight
      && model.tally == Tally(started, submitted, confirmed, timeout, abortedCount, failed)
    }

    /** The one cycle body stands at `pc`. */
    ghost predicate At(pc: Pc)
      reads this, store.db
    {
      Valid() && model.bodies == [pc]
    }

    /**
      A process over an open database. `kept` is what earlier processes left: by the protocol's `Exit` and `Start` the
      run goes on from there.
    */
    constructor (config: Config, db: BridgeState.Database, ghost kept: Store)
      requires ValidConfig(config) && !db.closed
      requires Mirrors(kept.entry, db.entry) && Inv(Process(kept, true))
      ensures this.config == config && store.db == db
      ensures origin == Process(kept, true) && model == origin && log == []
      ensures Valid()
    {
      this.config := config;
      store := new BridgeState.BridgeStateStore(db);
      inFlight, aborted, draining, bridgeInFlight, stopping := false, false, false, false, false;
      submitted, confirmed, timeout, abortedCount, failed, started, ticks := 0, 0, 0, 0, 0, 0, 0;
      origin, model, log := Process(kept, true), Process(kept, true), [];
    }

    /** The next event of the run. */
    ghost method LogEvent(e: Event)
      requires Logged() && Next(config.threshold, model, e).Some? && e != Exit
      modifies this`model, this`log
      ensures Logged() && Some(model) == Next(config.threshold, old(model), e) && log == old(log) + [e]
    {
      hide Next, Inv;
      StaysUp(config.threshold, model, e);
      NextKeepsInv(config.threshold, model, e);
      ProtocolProperties.RunAppend(config.threshold, origin, log, [e]);
      model := Next(config.threshold, model, e).value;
      log := log + [e];
    }

    /** SIGTERM or SIGINT: nothing new starts, and the database stays open until the running cycle is over. */
    method RequestShutdown()
      requires Valid()
      modifies this`stopping, this`aborted, this`draining, this`model, this`log
      ensures Valid() && stopping && aborted
      ensures model == old(model).(loop := model.loop)
      ensures old(log) < log
    {
      LogEvent(Shutdown);
      if aborted {
        return;
      }
      stopping := true;
      aborted := true;
      draining := inFlight;
    }

    /** An await at which a signal may arrive. */
    method Await(c: Cycle, point: AwaitPoint)
      requires Valid()
      modifies this`stopping, this`aborted, this`draining, this`model, this`log
      ensures Valid()
      ensures model == old(model).(loop := model.loop)
      ensures stopping == (old(stopping) || point in c.signals)
      ensures point !in c.signals ==> model == old(model) && log == old(log)
      ensures old(log) <= log
    {
      if point in c.signals {
        RequestShutdown();
      }
    }

    // ---- Reconciliation ----

    /** Reads the entry; the protocol goes to dropping, evicting, polling for the record, or on to the check. */
    method ReadStored(c: Cycle) returns (outcome: BridgeState.ReadOutcome)
      requires At(Reconciling)
      modifies this`model, this`log
      ensures Valid() && model == old(model).(bodies := model.bodies, misread := model.misread)
      ensures old(log) < log
      ensures outcome.Threw? <==> c.misread || model.store.entry.Junk?
      ensures outcome.Threw? ==> At(Clearing(ReadFailed, false))
      ensures outcome.Nothing? ==> At(Passed) && model.store.entry.Absent?
      ensures outcome.Found? ==>
                && model.store.entry.Held?
                && Decimal.Canonical(outcome.record.baselineBalance)
                && var r := model.store.entry.record;
                   && BridgeState.Uint(outcome.record.baselineBalance) == r.baseline
                   && outcome.record.submittedAtMs == r.submittedAtMs
                   && var age := c.nowMs - r.submittedAtMs;
                      At(if age > RECONCILIATION_MAX_AGE_MS then Clearing(TooOld(age), false) else Settling(r))
    {
      hide Run;
      OpenWhileRunning(model);
      outcome := store.Read(c.misread);
      LogEvent(Body(0, Read(c.nowMs, outcome.Threw?)));
    }

    /** Clears the entry; a clear that fails may still have taken effect. */
    method ClearEntry(fault: Fault, ghost reason: ClearReason) returns (ok: bool)
      requires At(Clearing(reason, false))
      modifies store.db`entry, this`model, this`log
      ensures Valid() && ok == fault.Works?
      ensures model.tally == old(model.tally) && model.bridgeInFlight == old(model.bridgeInFlight)
      ensures model.loop == old(model.loop) && old(log) <= log
      ensures model.store.entry == Cleaned(old(model.store.entry), fault)
      ensures store.db.entry == if fault == FailsBefore then old(store.db.entry) else None
      ensures |model.store.calls| == |old(model.store.calls)|
      ensures model.bodies == [Clearing(reason, !fault.FailsBefore?)]
    {
      hide Run;
      OpenWhileRunning(model);
      ok := store.Clear(fault);
      if fault != FailsBefore {
        LogEvent(Body(0, Commit));
      }
    }

    /** The clear is over; the body goes on as its reason says. */
    method GoOnAfterClear(ok: bool, ghost reason: ClearReason, ghost committed: bool)
      requires At(Clearing(reason, committed)) && (ok ==> committed)
      modifies this`model, this`log
      ensures Valid() && model == old(model).(bodies := model.bodies) && old(log) < log
      ensures model.bodies == [if reason.Settled? then Releasing else if ok || reason.ReadFailed? then Passed else Done]
    {
      hide Run;
      if ok {
        LogEvent(Body(0, Ack));
      } else {
        LogEvent(Body(0, Fail));
      }
    }

    method ClearStored(c: Cycle, fault: Fault, point: AwaitPoint, ghost reason: ClearReason) returns (ok: bool)
      requires At(Clearing(reason, false))
      modifies store.db`entry, this`stopping, this`aborted, this`draining, this`model, this`log
      ensures Valid() && ok == fault.Works?
      ensures model.tally == old(model.tally) && model.bridgeInFlight == old(model.bridgeInFlight)
      ensures stopping == (old(stopping) || point in c.signals) && old(log) < log
      ensures model.store.entry == Cleaned(old(model.store.entry), fault)
      ensures store.db.entry == if fault == FailsBefore then old(store.db.entry) else None
      ensures |model.store.calls| == |old(model.store.calls)|
      ensures model.bodies == [if reason.Settled? then Releasing else if ok || reason.ReadFailed? then Passed else Done]
    {
      hide Run, Inv, Next, Mirrors;
      ok := ClearEntry(fault, reason);
      Await(c, point);
      GoOnAfterClear(ok, reason, !fault.FailsBefore?);
    }

    /** Polls for a bridge confirmation. An aborted poll means that a shutdown was requested. */
    method Poll(baseline: int, e: Confirm.Environment, messageValid: bool)
      returns (out: Confirm.Outcome)
      requires Valid()
      modifies this`stopping, this`aborted, this`draining, this`model, this`log
      ensures Valid() && model == old(model).(loop := model.loop) && old(log) <= log
      ensures PollsTo(config, baseline, messageValid, e, old(aborted), out)
      ensures stopping == (old(stopping) || PollAborts(out))
      ensures !PollAborts(out) ==> model == old(model)
      ensures out.Finished? && out.report.status == Confirmed ==> out.report.maxObserved > baseline
    {
      hide Run, Inv, Next, Mirrors, Confirm.Ends;
      var options, env := PollOptions(config, baseline, messageValid), if aborted then e.(abortsAt := Some(0)) else e;
      out := Confirm.WaitForFeeJuiceBridgeConfirmation(options, env);
      ConfirmedAboveBaseline(options, env, out);
      if PollAborts(out) {
        RequestShutdown();
      }
    }

    /** The reconciliation poll is over: clear the record, keep it for a retry, or let the exception end the cycle. */
    method AfterSettling(out: Confirm.Outcome, ghost r: Record)
      requires At(Settling(r))
      requires out.Finished? && out.report.status == Confirmed ==> out.report.maxObserved > r.baseline
      modifies this`model, this`log
      ensures Valid() && model == old(model).(bodies := model.bodies) && old(log) < log
      ensures model.bodies ==
              [if out.Finished? && out.report.status == Confirmed then Clearing(Reconciled, false) else Done]
    {
      hide Run, Inv;
      if out.Finished? {
        LogEvent(Body(0, PollEnded(out.report.status, out.report.maxObserved)));
      } else {
        LogEvent(Body(0, PollThrew));
      }
    }

    /** Waits for the bridge of the record found and clears the record once it is confirmed. */
    method SettlePersisted(c: Cycle, baseline: int, ghost r: Record) returns (outcome: Outcome, ghost polled: Polled)
      requires At(Settling(r)) && r.baseline == baseline && aborted == (AfterRead in c.signals)
      modifies this`stopping, this`aborted, this`draining, this`model, this`log, store.db`entry
      ensures Valid() && model.tally == old(model.tally) && model.bridgeInFlight == old(model.bridgeInFlight)
      ensures old(log) < log
      ensures Settles(config, baseline, c, polled)
      ensures stopping == (
                || old(stopping) || InPoll in c.signals || polled == Reported(Aborted)
                || (polled == Reported(Confirmed) && AfterClear in c.signals))
      ensures outcome == match polled
                         case PollFailed => Exception
                         case Reported(Aborted) => Interrupted
                         case Reported(Timeout) => StillPending
                         case Reported(Confirmed) => if c.clearFault.Works? then BridgeConfirmed else Exception
      ensures model.store.entry ==
              if polled == Reported(Confirmed) then Cleaned(old(model.store.entry), c.clearFault)
              else old(model.store.entry)
      ensures |model.store.calls| == |old(model.store.calls)|
      ensures model.bodies == [if Admits(outcome) then Passed else Done]
    {
      hide Run, Inv, Next, Mirrors, PollsTo, Cleaned;
      var out := Poll(baseline, c.settling, c.settlingMessageValid);
      Await(c, InPoll);
      polled := PolledAs(out);
      AfterSettling(out, r);
      if out.NeverRead? {
        return Exception, polled;
      }
      match out.report.status
      case Aborted => return Interrupted, polled;
      case Timeout => return StillPending, polled;
      case Confirmed =>
        var ok := ClearStored(c, c.clearFault, AfterClear, Reconciled);
        return if ok then BridgeConfirmed else Exception, polled;
    }

    /** Reconciles the persisted record; `polled` is how its confirmation poll ended, if there was one. */
    method ReconcilePersisted(c: Cycle) returns (outcome: Outcome, ghost polled: Polled)
      requires At(Reconciling) && !stopping
      modifies this`stopping, this`aborted, this`draining, this`model, this`log, store.db`entry
      ensures Valid() && model.tally == old(model.tally) && model.bridgeInFlight == old(model.bridgeInFlight)
      ensures old(log) < log
      ensures stopping == StopsReconciling(old(model.store.entry), c, polled)
      ensures SettlesIfPolled(config, old(model.store.entry), c, polled)
      ensures (outcome, model.store.entry) ==
              Reconciliation(old(model.store.entry), c.nowMs, c.misread, c.clearFault, polled)
      ensures |model.store.calls| == |old(model.store.calls)|
      ensures model.bodies == [if Admits(outcome) then Passed else Done]
    {
      hide Run, Inv, Next, Mirrors, Settles;
      polled := PollFailed;
      var read := ReadStored(c);
      Await(c, AfterRead);
      match read
      case Threw =>
        var _ := ClearStored(c, c.clearFault, AfterClear, ReadFailed);
        return NothingToDo, polled;
      case Nothing =>
        return NothingToDo, polled;
      case Found(persisted) =>
        var age := c.nowMs - persisted.submittedAtMs;
        if age > RECONCILIATION_MAX_AGE_MS {
          var ok := ClearStored(c, c.clearFault, AfterClear, TooOld(age));
          return if ok then NothingToDo else Exception, polled;
        }
        outcome, polled := SettlePersisted(c, BridgeState.Uint(persisted.baselineBalance), model.store.entry.record);
    }

    // ---- The checker ----

    /** The bridge call returned: it counts as submitted. */
    method CountSubmitted(baseline: int, ghost calls: nat, wellFormed: bool, atMs: int)
      requires At(Bridging(baseline, calls)) && calls > 0
      modifies this`submitted, this`model, this`log
      ensures Valid() && model.loop == old(model.loop) && old(log) < log
      ensures model.tally == old(model.tally).(submitted := old(model.tally.submitted) + 1)
      ensures model.bridgeInFlight == old(model.bridgeInFlight)
      ensures model.store == old(model.store).(calls := old(model.store.calls) + [Unsaved])
      ensures model.bodies == [Saving(Record(|old(model.store.calls)|, baseline, atMs), wellFormed, false)]
    {
      hide Run, Inv, Mirrors;
      submitted := submitted + 1;
      LogEvent(Body(0, Bridged(wellFormed, atMs)));
    }

    /** Persists the record of a bridge that returned; a write that fails may still have taken effect. */
    method WriteRecord(c: Cycle, baseline: int, claim: Claim, ghost r: Record) returns (ok: bool)
      requires At(Saving(r, BridgeState.WellFormed(baseline, Built(claim, c.bridgedAtMs)), false))
      requires r.baseline == baseline && r.submittedAtMs == c.bridgedAtMs
      modifies this`model, this`log, store.db`entry
      ensures Valid() && model.loop == old(model.loop) && old(log) <= log && model.tally == old(model.tally)
      ensures model.bridgeInFlight == old(model.bridgeInFlight)
      ensures ok <==> c.writeFault.Works?
      ensures var wellFormed := BridgeState.WellFormed(baseline, Built(claim, c.bridgedAtMs));
              && model.bodies == [Saving(r, wellFormed, !c.writeFault.FailsBefore?)]
              && model.store.entry == EntryWritten(old(model.store.entry), r, c, claim)
      ensures store.db.entry == if c.writeFault == FailsBefore then old(store.db.entry) else Some(BridgeState.Object(
                BridgeState.Text(Decimal.PrintInt(baseline)), BridgeState.Text(Decimal.PrintInt(claim.amount)),
                BridgeState.Text(claim.secret), BridgeState.Text(claim.secretHash), BridgeState.Text(claim.messageHash),
                BridgeState.Text(Decimal.PrintInt(claim.leafIndex)), BridgeState.Number(c.bridgedAtMs as real)))
      ensures |model.store.calls| == |old(model.store.calls)|
    {
      hide Run, Mirrors, BridgeState.WellFormed;
      WrittenMirrors(baseline, claim, r);
      OpenWhileRunning(model);
      ok := store.Write(baseline, Built(claim, c.bridgedAtMs), c.writeFault);
      if c.writeFault != FailsBefore {
        LogEvent(Body(0, Commit));
      }
    }

    /** The write succeeded: on to the confirmation poll. */
    method GoOnAfterWrite(ghost r: Record, ghost wellFormed: bool)
      requires At(Saving(r, wellFormed, true))
      modifies this`model, this`log
      ensures Valid() && model == old(model).(bodies := [Polling(r)]) && old(log) < log
    {
      hide Run, Inv, Mirrors;
      LogEvent(Body(0, Ack));
    }

    /** One call of the L1 portal. */
    ghost method LogPortalCall(baseline: int, calls: nat)
      requires At(Bridging(baseline, calls)) && calls < BridgeRetry.MAX_NONCE_RETRY_ATTEMPTS
      modifies this`model, this`log
      ensures Valid() && model == old(model).(bodies := [Bridging(baseline, calls + 1)]) && old(log) < log
    {
      hide Run, Inv, Mirrors;
      LogEvent(Body(0, CallPortal));
    }

    /** Bridges with retries. A signal may arrive before the first portal call; the calls are made all the same. */
    method CallBridge(c: Cycle, baseline: int)
      returns (out: Result<Claim, BridgeRetry.Failure>, ghost calls: nat, waitedMs: nat)
      requires At(Bridging(baseline, 0))
      modifies this`stopping, this`aborted, this`draining, this`model, this`log
      ensures At(Bridging(baseline, calls)) && old(log) <= log
      ensures model == old(model).(bodies := model.bodies, loop := model.loop)
      ensures out.Ok? ==> calls > 0
      ensures BridgesTo(config, c, out)
      ensures calls <= 3 && waitedMs == if calls <= 1 then 0 else if calls == 2 then 2000 else 6000
      ensures stopping == (old(stopping) || InBridge in c.signals)
    {
      hide Run, Inv, Next, Mirrors, BridgeRetry.LastCall, BridgeRetry.Pow2, BridgeRetry.Concludes;
      Await(c, InBridge);
      var result, made, waited := BridgeRetry.BridgeFeeJuice(
        config.targetIsZero, config.topUpAmount, c.setupFails, BridgeRetry.MAX_NONCE_RETRY_ATTEMPTS, c.portal);
      out, waitedMs := result, waited;
      DelaysAre(made);
      calls := 0;
      ghost var start := model;
      ghost var begun := log;
      while calls < made
        invariant calls <= made <= BridgeRetry.MAX_NONCE_RETRY_ATTEMPTS
        invariant At(Bridging(baseline, calls)) && begun <= log
        invariant model == start.(bodies := model.bodies)
      {
        LogPortalCall(baseline, calls);
        calls := calls + 1;
      }
    }

    /**
      The confirmation returned: count its status and clear the record once confirmed; a failed clear is only logged.
    */
    method CountSettled(report: Confirm.Report, ghost r: Record)
      requires At(Polling(r)) && (report.status == Confirmed ==> report.maxObserved > r.baseline)
      modifies this`confirmed, this`timeout, this`abortedCount, this`model, this`log
      ensures Valid()
      ensures model == old(model).(bodies := model.bodies, tally := CountStatus(old(model.tally), report.status))
      ensures model.bodies == [if report.status == Confirmed then Clearing(Settled, false) else Releasing]
      ensures confirmed == old(confirmed) + if report.status == Confirmed then 1 else 0
      ensures timeout == old(timeout) + if report.status == Timeout then 1 else 0
      ensures abortedCount == old(abortedCount) + if report.status == Aborted then 1 else 0
      ensures old(log) < log
    {
      hide Run, Inv, Mirrors;
      match report.status {
        case Confirmed => confirmed := confirmed + 1;
        case Timeout => timeout := timeout + 1;
        case Aborted => abortedCount := abortedCount + 1;
      }
      LogEvent(Body(0, PollEnded(report.status, report.maxObserved)));
    }

    method OnBridgeSettled(c: Cycle, report: Confirm.Report, ghost r: Record)
      requires At(Polling(r)) && (report.status == Confirmed ==> report.maxObserved > r.baseline)
      modifies this`confirmed, this`timeout, this`abortedCount, this`model, this`log, store.db`entry
      modifies this`stopping, this`aborted, this`draining
      ensures At(Releasing) && old(log) < log && |model.store.calls| == |old(model.store.calls)|
      ensures stopping == (old(stopping) || (report.status == Confirmed && AfterSettle in c.signals))
      ensures model.tally == CountStatus(old(model.tally), report.status)
      ensures confirmed == old(confirmed) + if report.status == Confirmed then 1 else 0
      ensures timeout == old(timeout) + if report.status == Timeout then 1 else 0
      ensures abortedCount == old(abortedCount) + if report.status == Aborted then 1 else 0
      ensures store.db.entry ==
              if report.status == Confirmed && c.settleFault != FailsBefore then None else old(store.db.entry)
      ensures model.store.entry ==
              if report.status == Confirmed then Cleaned(old(model.store.entry), c.settleFault)
              else old(model.store.entry)
    {
      hide Run, Inv, Next, Mirrors;
      CountSettled(report, r);
      if report.status == Confirmed {
        var _ := ClearStored(c, c.settleFault, AfterSettle, Settled);
      }
    }

    /** Counts and persists a bridge that returned; `r` is its record. */
    method OnBridgeSubmitted(c: Cycle, baseline: int, claim: Claim, ghost calls: nat)
      returns (ok: bool, ghost r: Record)
      requires At(Bridging(baseline, calls)) && calls > 0
      modifies this`submitted, this`model, this`log, store.db`entry, this`stopping, this`aborted, this`draining
      ensures Valid() && |model.bodies| == 1 && old(log) < log
      ensures stopping == (old(stopping) || AfterWrite in c.signals)
      ensures |model.store.calls| == |old(model.store.calls)| + 1
      ensures model.tally == old(model.tally).(submitted := old(model.tally.submitted) + 1)
      ensures ok <==> c.writeFault.Works?
      ensures r == Protocol.Record(|old(model.store.calls)|, baseline, c.bridgedAtMs)
      ensures model.bodies[0] ==
              if ok then Polling(r)
              else Saving(r, BridgeState.WellFormed(baseline, Built(claim, c.bridgedAtMs)), c.writeFault.FailsAfter?)
      ensures model.store.entry == EntryWritten(old(model.store.entry), r, c, claim)
      ensures store.db.entry == if c.writeFault == FailsBefore then old(store.db.entry) else Some(BridgeState.Object(
                BridgeState.Text(Decimal.PrintInt(baseline)), BridgeState.Text(Decimal.PrintInt(claim.amount)),
                BridgeState.Text(claim.secret), BridgeState.Text(claim.secretHash), BridgeState.Text(claim.messageHash),
                BridgeState.Text(Decimal.PrintInt(claim.leafIndex)), BridgeState.Number(c.bridgedAtMs as real)))
      ensures submitted == old(submitted) + 1
    {
      hide Run, Inv, Next, Mirrors, BridgeState.WellFormed, EntryWritten;
      r := Protocol.Record(|model.store.calls|, baseline, c.bridgedAtMs);
      var wellFormed := BridgeState.WellFormed(baseline, Built(claim, c.bridgedAtMs));
      CountSubmitted(baseline, calls, wellFormed, c.bridgedAtMs);
      ok := WriteRecord(c, baseline, claim, r);
      Await(c, AfterWrite);
      if ok {
        GoOnAfterWrite(r, wellFormed);
      }
    }

    /** The confirmation poll after a saved bridge; it throws only if no balance was ever read. */
    method ConfirmBridge(c: Cycle, baseline: int, ghost r: Record) returns (ghost out: Confirm.Outcome, ok: bool)
      requires At(Polling(r)) && r.baseline == baseline
      modifies this`confirmed, this`timeout, this`abortedCount, this`model, this`log, store.db`entry
      modifies this`stopping, this`aborted, this`draining
      ensures Valid() && old(log) <= log && |model.store.calls| == |old(model.store.calls)|
      ensures stopping == (old(stopping) || StopsConfirming(c, out))
      ensures ok == out.Finished? && model.bodies == [if ok then Releasing else Polling(r)]
      ensures PollsTo(config, baseline, c.confirmingMessageValid, c.confirming, old(aborted), out)
      ensures model.tally == if ok then CountStatus(old(model.tally), out.report.status) else old(model.tally)
      ensures model.store.entry == EntrySettled(old(model.store.entry), c, out)
    {
      hide Run, Inv, Next, Mirrors, PollsTo, Confirm.Ends, CountStatus, Cleaned;
      var ended := Poll(baseline, c.confirming, c.confirmingMessageValid);
      out := ended;
      Await(c, InConfirm);
      ok := ended.Finished?;
      if ok {
        OnBridgeSettled(c, ended.report, r);
      }
    }

    /**
      A bridge that resolved: its record is written, then its confirmation is awaited. `error` says where it throws.
    */
    method PersistAndConfirm(c: Cycle, baseline: int, claim: Claim, ghost calls: nat)
      returns (ok: bool, ghost error: Action, ghost out: Confirm.Outcome)
      requires At(Bridging(baseline, calls)) && calls > 0 && stopping == (InBridge in c.signals)
      modifies this`submitted, this`confirmed, this`timeout, this`abortedCount, this`model, this`log, store.db`entry
      modifies this`stopping, this`aborted, this`draining
      ensures var course := Course(Ok(claim), out);
              && Valid() && |model.bodies| == 1 && old(log) < log
              && stopping == StopsBridging(c, course)
              && |model.store.calls| == |old(model.store.calls)| + 1
              && (ok ==> model.bodies == [Releasing])
              && (!ok ==> Throws(model.bodies[0], error))
              && (Reaches(c, course) ==>
                    PollsTo(config, baseline, c.confirmingMessageValid, c.confirming,
                            InBridge in c.signals || AfterWrite in c.signals, out))
              && (ok <==> Reaches(c, course) && out.Finished?)
              && TallyAfter(old(model.tally), c, course) ==
                 (if ok then model.tally else model.tally.(failed := model.tally.failed + 1))
              && (var r := Protocol.Record(|old(model.store.calls)|, baseline, c.bridgedAtMs);
                  model.store.entry == EntryAfter(old(model.store.entry), r, c, course))
    {
      hide Run, Inv, Next, Mirrors, EntryWritten, EntrySettled, PollsTo, CountStatus, StopsConfirming;
      out := Confirm.NeverRead(0);
      var written;
      ghost var r;
      written, r := OnBridgeSubmitted(c, baseline, claim, calls);
      if !written {
        return false, Fail, out;
      }
      out, ok := ConfirmBridge(c, baseline, r);
      error := PollThrew;
    }

    /**
      The bridge call, the write of its record, the confirmation and the clear. When it throws, `error` says where.
    */
    method ExecuteBridgeAndConfirmation(c: Cycle, baseline: int)
      returns (ok: bool, ghost error: Action, ghost course: Course)
      requires At(Bridging(baseline, 0)) && !stopping
      modifies this`submitted, this`confirmed, this`timeout, this`abortedCount, this`model, this`log, store.db`entry
      modifies this`stopping, this`aborted, this`draining
      ensures Valid() && |model.bodies| == 1 && old(log) <= log
      ensures stopping == StopsBridging(c, course)
      ensures |model.store.calls| == |old(model.store.calls)| + if course.bridge.Ok? then 1 else 0
      ensures ok ==> model.bodies == [Releasing]
      ensures !ok ==> Throws(model.bodies[0], error)
      ensures Follows(config, c, baseline, course)
      ensures ok <==> Reaches(c, course) && course.poll.Finished?
      ensures TallyAfter(old(model.tally), c, course) ==
              if ok then model.tally else model.tally.(failed := model.tally.failed + 1)
      ensures var r := Protocol.Record(|old(model.store.calls)|, baseline, c.bridgedAtMs);
              model.store.entry == EntryAfter(old(model.store.entry), r, c, course)
    {
      hide Run, Inv, Next, Mirrors, EntryWritten, EntrySettled, PollsTo, BridgesTo, CountStatus, StopsConfirming;
      error := BridgeThrew;
      var result, waitedMs;
      ghost var calls;
      result, calls, waitedMs := CallBridge(c, baseline);
      course := Course(result, Confirm.NeverRead(0));
      if result.Err? {
        return false, error, course;
      }
      ghost var out;
      ok, error, out := PersistAndConfirm(c, baseline, result.value, calls);
      course := Course(result, out);
    }

    /** The failure hook counts the failure. */
    method HandleBridgeFailure(ghost pc: Pc, ghost error: Action)
      requires At(pc) && Throws(pc, error)
      modifies this`failed, this`model, this`log
      ensures At(Releasing) && old(log) < log
      ensures model.loop == old(model.loop) && model.store.entry == old(model.store.entry)
      ensures |model.store.calls| == |old(model.store.calls)|
      ensures model.tally == old(model.tally).(failed := old(model.tally.failed) + 1) && failed == old(failed) + 1
    {
      hide Run, Inv, Mirrors;
      failed := failed + 1;
      LogEvent(Body(0, error));
    }

    /** The check admitted by reconciliation begins unless the checker is stopping or already bridging. */
    method BeginCheck() returns (skip: bool)
      requires At(Passed)
      modifies this`model, this`log
      ensures Valid() && model == old(model).(bodies := model.bodies) && old(log) < log
      ensures skip <==> stopping
      ensures model.bodies == [if skip then Done else ReadingBalance]
    {
      hide Run, Mirrors;
      skip := stopping || bridgeInFlight;
      LogEvent(Body(0, Check));
    }

    /** The balance read is over: a low balance starts a bridge call unless the checker is stopping. */
    method DecideOnBalance(balance: Option<int>) returns (submit: bool)
      requires At(ReadingBalance)
      modifies this`bridgeInFlight, this`started, this`model, this`log
      ensures Valid() && model.loop == old(model.loop) && model.store == old(model.store) && old(log) < log
      ensures submit <==> balance.Some? && balance.value < config.threshold && !stopping
      ensures model.tally == old(model.tally).(started := old(started) + if submit then 1 else 0)
      ensures model.bodies == [if submit then Bridging(balance.value, 0) else Done]
      ensures bridgeInFlight <==> submit || old(bridgeInFlight)
    {
      hide Run, Inv, Mirrors;
      submit := balance.Some? && balance.value < config.threshold && !stopping;
      if submit {
        bridgeInFlight := true;
        started := started + 1;
      }
      LogEvent(Body(0, Balance(balance)));
    }

    /** The `finally` block after a bridge. */
    method Release()
      requires At(Releasing)
      modifies this`bridgeInFlight, this`model, this`log
      ensures At(Done) && !bridgeInFlight && model.loop == old(model.loop) && model.tally == old(model.tally)
      ensures model.store == old(model.store) && old(log) < log
    {
      hide Run, Inv, Mirrors;
      bridgeInFlight := false;
      LogEvent(Body(0, Released));
    }

    /** The guarded part of a check: bridge and confirm, count a failure, and release the flag either way. */
    method TopUp(c: Cycle, baseline: int) returns (ghost course: Course)
      requires At(Bridging(baseline, 0)) && !stopping
      modifies this, store.db`entry
      ensures At(Done) && old(log) <= log && ticks == old(ticks)
      ensures stopping == StopsBridging(c, course)
      ensures |model.store.calls| == |old(model.store.calls)| + if course.bridge.Ok? then 1 else 0
      ensures Follows(config, c, baseline, course)
      ensures model.tally == TallyAfter(old(model.tally), c, course)
      ensures var r := Protocol.Record(|old(model.store.calls)|, baseline, c.bridgedAtMs);
              model.store.entry == EntryAfter(old(model.store.entry), r, c, course)
    {
      hide Run, Inv, Next, Mirrors, EntryAfter, TallyAfter, Follows, Reaches, StopsBridging;
      var ok;
      ghost var error;
      ok, error, course := ExecuteBridgeAndConfirmation(c, baseline);
      if !ok {
        HandleBridgeFailure(model.bodies[0], error);
      }
      Release();
    }

    /**
      Checks the balance and starts a bridge call exactly when it is low and no shutdown has been requested; what that
      bridge counts and leaves in the store follows from its course.
    */
    method CheckAndTopUp(c: Cycle) returns (submit: bool, ghost course: Course)
      requires At(Passed)
      modifies this, store.db`entry
      ensures At(Done) && old(log) <= log && ticks == old(ticks)
      ensures submit <==>
                !old(stopping) && AfterBalance !in c.signals && LowBalance(config, c)
      ensures stopping == (old(stopping) || AfterBalance in c.signals || (submit && StopsBridging(c, course)))
      ensures !submit ==> model.tally == old(model.tally) && model.store == old(model.store)
      ensures submit ==>
                && Follows(config, c, c.balance.value, course)
                && model.tally == TallyAfter(old(model.tally).(started := old(started) + 1), c, course)
                && (var r := Protocol.Record(|old(model.store.calls)|, c.balance.value, c.bridgedAtMs);
                    model.store.entry == EntryAfter(old(model.store.entry), r, c, course))
                && |model.store.calls| == |old(model.store.calls)| + if course.bridge.Ok? then 1 else 0
    {
      hide Run, Inv, Next, Mirrors, EntryAfter, TallyAfter, Follows, Reaches, StopsBridging;
      submit, course := false, Course(Err(BridgeRetry.SetupFailed), Confirm.NeverRead(0));
      var skip := BeginCheck();
      if skip {
        return;
      }
      Await(c, AfterBalance);
      submit := DecideOnBalance(c.balance);
      if !submit {
        return;
      }
      course := TopUp(c, c.balance.value);
    }

    // ---- Cycles ----

    /** A timer tick starts a cycle body unless a shutdown was requested or a cycle is in flight. */
    method BeginCycle() returns (go: bool)
      requires Valid()
      modifies this`inFlight, this`ticks, this`model, this`log
      ensures Valid() && old(log) < log && ticks == old(ticks) + 1
      ensures go <==> !aborted && !old(inFlight)
      ensures !go ==> model == old(model)
      ensures go ==> model.bodies == [Reconciling] && model.store == old(model.store) && model.tally == old(model.tally)
    {
      hide Run, Mirrors;
      ticks := ticks + 1;
      go := !aborted && !inFlight;
      if go {
        inFlight := true;
      }
      LogEvent(Tick);
    }

    /** The cycle promise settles. */
    method EndCycle()
      requires At(Done)
      modifies this`inFlight, this`draining, this`model, this`log
      ensures Valid() && model.bodies == [] && !inFlight && !draining && old(log) < log
      ensures model.store == old(model.store) && model.tally == old(model.tally) && stopping == old(stopping)
    {
      hide Run, Inv, Mirrors;
      inFlight := false;
      draining := false;
      LogEvent(Body(0, Finally));
    }

    /**
      One cycle: reconcile, then check. The script of the cycle decides everything that it leaves: whether a bridge call
      was started, the counters, the stored entry, and whether a shutdown was requested.
    */
    method RunCycle(c: Cycle) returns (ghost lap: Lap)
      requires Valid()
      modifies this, store.db`entry
      ensures Valid() && old(log) < log && ticks == old(ticks) + 1
      ensures old(aborted) || old(inFlight) ==> model == old(model) && store.db.entry == old(store.db.entry)
      ensures !old(aborted) && !old(inFlight) ==>
                && model.bodies == [] && !inFlight
                && LapLeads(config, old(model), c, lap, model)
                && aborted == lap.stops
    {
      hide Run, Inv, Next, Mirrors, Reconciliation, SettlesIfPolled, Follows, EntryAfter, TallyAfter;
      hide StopsReconciling, StopsBridging;
      var course := Course(Err(BridgeRetry.SetupFailed), Confirm.NeverRead(0));
      lap := Lap(PollFailed, course, |model.store.calls|, model.store.entry, false, model.store.entry, false);
      var go := BeginCycle();
      if !go {
        return;
      }
      var outcome;
      ghost var polled;
      outcome, polled := ReconcilePersisted(c);
      lap := lap.(polled := polled, kept := model.store.entry);
      if Admits(outcome) {
        var submit;
        ghost var went;
        submit, went := CheckAndTopUp(c);
        lap := lap.(course := went, started := submit);
      }
      lap := lap.(after := model.store.entry, stops := stopping);
      EndCycle();
    }

    /** The shutdown handler closes the database once the cycle it waits for is over. */
    method CloseDatabase()
      requires Valid() && aborted && !draining
      modifies this`model, this`log, store.db`closed
      ensures Valid() && store.db.closed && model.bodies == []
      ensures model.store == old(model.store) && model.tally == old(model.tally) && old(log) < log
    {
      hide Run, Mirrors;
      LogEvent(CloseDb);
      store.db.closed := true;
    }

    /**
      The service loop: cycles one after another until a shutdown is requested, in a cycle or while idle after
      `quitAfter` of them; then, and only then, the database is closed. The scripts decide the whole history: `laps` are
      the cycles that ran, each on what the one before it left.
    */
    method Serve(cycles: seq<Cycle>, quitAfter: nat) returns (ghost laps: seq<Lap>)
      requires Valid() && model.bodies == [] && !aborted && !store.db.closed
      modifies this, store.db
      ensures Valid() && model.bodies == [] && !inFlight && old(log) <= log
      ensures Leads(config, old(model), cycles, laps, model)
      ensures forall k | 0 <= k < |laps| - 1 :: !laps[k].stops && k + 1 != quitAfter
      ensures aborted <==> laps != [] && (laps[|laps| - 1].stops || |laps| == quitAfter)
      ensures ticks == old(ticks) + |laps|
      ensures !aborted ==> |laps| == |cycles|
      ensures aborted <==> store.db.closed
    {
      hide Run, Inv, Next, Mirrors, Leads, LapLeads;
      var k := 0;
      laps := [];
      NoLapsYet(config, model, cycles, quitAfter);
      IdleBetweenCycles(model);
      while k < |cycles| && !aborted
        invariant k == |laps| <= |cycles| && Valid() && model.bodies == [] && old(log) <= log
        invariant Leads(config, old(model), cycles, laps, model) && StoppedBy(laps, quitAfter, aborted)
        invariant ticks == old(ticks) + k
        invariant !store.db.closed && !inFlight && !draining
      {
        ghost var from := model;
        ghost var lap := RunCycle(cycles[k]);
        ghost var ran := model;
        k := k + 1;
        if !aborted && k == quitAfter {
          RequestShutdown();
        }
        SameLap(config, from, cycles[k - 1], lap, ran, model);
        LeadsOn(config, old(model), cycles, laps, from, lap, model);
        StoppedByNext(laps, quitAfter, lap);
        laps := laps + [lap];
        IdleBetweenCycles(model);
      }
      if aborted {
        ghost var before := model;
        CloseDatabase();
        SameEnd(config, old(model), cycles, laps, before, model);
      }
      assert StoppedBy(laps, quitAfter, aborted);
    }

    /**
      Wherever the process ends, at any await, the run goes on with a new process: `Exit` and `Start` lead from the
      state at that await to a state from which the constructor can take over the database as it was left.
    */
    lemma EndedProcessCanBeFollowed() returns (kept: Store)
      requires Valid()
      ensures Mirrors(kept.entry, store.db.entry) && Inv(Process(kept, true))
      ensures kept == Store(model.store.entry, LoseUnsaved(model.store.calls))
      ensures Run(config.threshold, origin, log + [Exit, Start]) == Some(Process(kept, true))
      ensures ProtocolProperties.Reachable(config.threshold, origin) ==>
                ProtocolProperties.Reachable(config.threshold, Process(kept, true))
    {
      var ended := Next(config.threshold, model, Exit).value;
      kept := ended.store;
      NextKeepsInv(config.threshold, model, Exit);
      NextKeepsInv(config.threshold, ended, Start);
      ProtocolProperties.RunAlong(config.threshold, [model, ended, Process(kept, true)], [Exit, Start]);
      ProtocolProperties.RunAppend(config.threshold, origin, log, [Exit, Start]);
      if es :| Run(config.threshold, INITIAL, es) == Some(origin) {
        ProtocolProperties.RunAppend(config.threshold, INITIAL, es, log + [Exit, Start]);
      }
    }

    /** At every await each counter of the service is the number of the events that it is for. */
    lemma CountersCount()
      requires Valid()
      ensures started == ProtocolProperties.Times(ProtocolProperties.Starts, config.threshold, origin, log)
      ensures submitted == ProtocolProperties.Times(ProtocolProperties.Submits, config.threshold, origin, log)
      ensures confirmed == ProtocolProperties.Times(ProtocolProperties.Ends(Confirmed), config.threshold, origin, log)
      ensures timeout == ProtocolProperties.Times(ProtocolProperties.Ends(Timeout), config.threshold, origin, log)
      ensures abortedCount == ProtocolProperties.Times(ProtocolProperties.Ends(Aborted), config.threshold, origin, log)
      ensures failed == ProtocolProperties.Times(ProtocolProperties.Fails, config.threshold, origin, log)
    {
      hide Run, Inv, Mirrors;
      ProtocolProperties.CountersCountEvents(config.threshold, origin, log);
    }

    /** In a service whose reads throw only on ill-formed entries at most one bridge is tracked, at every await. */
    lemma TracksOneBridge()
      requires Valid() && HonestReads(config.threshold, origin, log) && !origin.misread
      ensures !ProtocolProperties.TwoTracked(model)
    {
      ProtocolProperties.HonestRunsNeverMisread(config.threshold, origin, log);
      ProtocolProperties.TwoTrackedInInvariant(model);
    }
  }

  /** A new process opens the database of one that ended, and the run of the first goes on in it. */
  method Restart(ended: Service) returns (next: Service, ghost run: seq<Event>)
    requires ended.Valid()
    ensures next.Valid() && fresh(next) && fresh(next.store.db)
    ensures next.config == ended.config && next.store.db.entry == ended.store.db.entry && !next.store.db.closed
    ensures run == ended.log + [Exit, Start]
    ensures Run(ended.config.threshold, ended.origin, run) == Some(next.model)
    ensures next.log == [] && next.origin == next.model
    ensures ProtocolProperties.Reachable(ended.config.threshold, ended.origin) ==>
              ProtocolProperties.Reachable(next.config.threshold, next.origin)
  {
    ghost var kept := ended.EndedProcessCanBeFollowed();
    var db := new BridgeState.Database.Reopen(ended.store.db);
    next := new Service(ended.config, db, kept);
    run := ended.log + [Exit, Start];
  }

  /** What is written reads back as the record it stands for, or is junk if the bridge result was ill-formed. */
  lemma WrittenMirrors(baseline: int, claim: Claim, r: Record)
    requires r.baseline == baseline
    ensures var result := Built(claim, r.submittedAtMs);
            Mirrors(
              if BridgeState.WellFormed(baseline, result) then Held(r) else Junk,
              Some(BridgeState.Stored(baseline, result)))
  {
    BridgeState.ReadAfterWrite(baseline, Built(claim, r.submittedAtMs));
  }

  lemma ConfirmedAboveBaseline(o: Confirm.Options, e: Confirm.Environment, out: Confirm.Outcome)
    requires Confirm.Ends(o, e, out)
    ensures out.Finished? && out.report.status == Confirmed ==> out.report.maxObserved > o.baseline
  {
    if out.Finished? {
      var n :| Confirm.FirstStop(o, e, n) && out == Confirm.Concluded(o, e, n);
      ConfirmProperties.ReportAddsUp(o, e, n);
    }
  }
}
