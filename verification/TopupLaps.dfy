/** Cycles one after another: each script decides its cycle, and eviction bounds the life of a record in the service. */
module TopupLaps {
  import opened Outcomes
  import opened Protocol
  import opened Reconcile
  import opened TopupScript
  import BridgeRetry
  import Confirm
  import ConfirmProperties

  // ---- The script decides ----

  lemma EndsOnce(o: Confirm.Options, e: Confirm.Environment, a: Confirm.Outcome, b: Confirm.Outcome)
    requires Confirm.Ends(o, e, a) && Confirm.Ends(o, e, b)
    ensures a == b
  {
    var m :| Confirm.FirstStop(o, e, m) && a == Confirm.Concluded(o, e, m);
    var n :| Confirm.FirstStop(o, e, n) && b == Confirm.Concluded(o, e, n);
    ConfirmProperties.FirstStopUnique(o, e, m, n);
  }

  lemma BridgesToOnce(config: Config, c: Cycle, a: Result<Claim, BridgeRetry.Failure>,
                      b: Result<Claim, BridgeRetry.Failure>)
    requires BridgesTo(config, c, a) && BridgesTo(config, c, b)
    ensures a == b
  {
    var limit := BridgeRetry.MAX_NONCE_RETRY_ATTEMPTS;
    var m: nat :| BridgeRetry.Concludes(config.targetIsZero, config.topUpAmount, c.setupFails, limit, c.portal, a, m);
    var n: nat :| BridgeRetry.Concludes(config.targetIsZero, config.topUpAmount, c.setupFails, limit, c.portal, b, n);
    if !config.targetIsZero && config.topUpAmount > 0 && !c.setupFails {
      BridgeRetry.OneLastCall(c.portal, limit, m - 1, n - 1);
    }
  }

  lemma SettlesOnce(config: Config, baseline: int, c: Cycle, a: Polled, b: Polled)
    requires Settles(config, baseline, c, a) && Settles(config, baseline, c, b)
    ensures a == b
  {
    var e := if AfterRead in c.signals then c.settling.(abortsAt := Some(0)) else c.settling;
    var options := PollOptions(config, baseline, c.settlingMessageValid);
    var x :| Confirm.Ends(options, e, x) && a == PolledAs(x);
    var y :| Confirm.Ends(options, e, y) && b == PolledAs(y);
    EndsOnce(options, e, x, y);
  }

  /** Two laps of one script leave the same entry, counters and abort flag, and give the next bridge the same number. */
  lemma ScriptDecides(config: Config, before: Entry, c: Cycle, a: Lap, b: Lap, t: Tally)
    requires LapOk(config, before, c, a) && LapOk(config, before, c, b) && a.id == b.id
    ensures a.kept == b.kept && a.started == b.started && a.after == b.after && a.stops == b.stops
    ensures a.NextId() == b.NextId() && LapTally(t, c, a) == LapTally(t, c, b)
  {
    hide Settles, PollsTo, BridgesTo;
    if PollsFor(before, c) {
      SettlesOnce(config, before.record.baseline, c, a.polled, b.polled);
    }
    assert a.started == b.started;
    if a.started {
      CourseDecides(config, c, c.balance.value, a.course, b.course);
    }
  }

  lemma CourseDecides(config: Config, c: Cycle, baseline: int, a: Course, b: Course)
    requires Follows(config, c, baseline, a) && Follows(config, c, baseline, b)
    ensures a.bridge == b.bridge && (Reaches(c, a) ==> a.poll == b.poll)
  {
    BridgesToOnce(config, c, a.bridge, b.bridge);
    if Reaches(c, a) {
      var fired := InBridge in c.signals || AfterWrite in c.signals;
      EndsOnce(PollOptions(config, baseline, c.confirmingMessageValid),
               if fired then c.confirming.(abortsAt := Some(0)) else c.confirming, a.poll, b.poll);
    }
  }

  /**
    Where the poll for the stored record shows the bridge, no signal arrives and the clear works, the record is cleared.
  */
  lemma ShownRecordIsCleared(config: Config, before: Entry, c: Cycle, lap: Lap, n: nat)
    requires LapOk(config, before, c, lap) && PollsFor(before, c) && c.signals == {} && c.clearFault.Works?
    requires var o := PollOptions(config, before.record.baseline, c.settlingMessageValid);
             Confirm.FirstStop(o, c.settling, n) && Confirm.Judge(o, c.settling, n) == Confirm.Accepted
    ensures lap.kept == Absent && lap.started == LowBalance(config, c)
  {
    var o := PollOptions(config, before.record.baseline, c.settlingMessageValid);
    var out := Confirm.Concluded(o, c.settling, n);
    assert Confirm.Ends(o, c.settling, out);
    assert PollsTo(config, before.record.baseline, c.settlingMessageValid, c.settling, AfterRead in c.signals, out);
    assert Settles(config, before.record.baseline, c, PolledAs(out));
    SettlesOnce(config, before.record.baseline, c, lap.polled, PolledAs(out));
    hide Settles, PollsTo, Confirm.Concluded, Confirm.FirstStop;
  }

  // ---- Cycles in a row ----

  /** The stored entry before lap `k`. */
  function EntryBefore(before: Entry, laps: seq<Lap>, k: nat): Entry
    requires k <= |laps|
  {
    if k == 0 then before else laps[k - 1].after
  }

  function IdBefore(id: nat, laps: seq<Lap>, k: nat): nat
    requires k <= |laps|
  {
    if k == 0 then id else laps[k - 1].NextId()
  }

  /** The laps of the first cycles, each taking over what the one before it left. */
  ghost predicate Chain(config: Config, before: Entry, id: nat, cycles: seq<Cycle>, laps: seq<Lap>) {
    && |laps| <= |cycles|
    && forall k: nat | k < |laps| ::
         LapOk(config, EntryBefore(before, laps, k), cycles[k], laps[k]) && laps[k].id == IdBefore(id, laps, k)
  }

  ghost function Tallied(t: Tally, cycles: seq<Cycle>, laps: seq<Lap>): Tally
    requires |laps| <= |cycles|
  {
    if laps == [] then t
    else
      var n := |laps| - 1;
      LapTally(Tallied(t, cycles, laps[..n]), cycles[n], laps[n])
  }

  lemma ChainGrows(config: Config, before: Entry, id: nat, cycles: seq<Cycle>, laps: seq<Lap>, lap: Lap)
    requires Chain(config, before, id, cycles, laps) && |laps| < |cycles|
    requires LapOk(config, EntryBefore(before, laps, |laps|), cycles[|laps|], lap)
    requires lap.id == IdBefore(id, laps, |laps|)
    ensures Chain(config, before, id, cycles, laps + [lap])
  {
    hide LapOk;
    var longer := laps + [lap];
    forall k: nat | k < |longer|
      ensures LapOk(config, EntryBefore(before, longer, k), cycles[k], longer[k])
      ensures longer[k].id == IdBefore(id, longer, k)
    {
      assert EntryBefore(before, longer, k) == EntryBefore(before, laps, k);
      assert IdBefore(id, longer, k) == IdBefore(id, laps, k);
    }
  }

  /** The laps of the first cycles lead from one state between cycles to another. */
  ghost predicate Leads(config: Config, from: State, cycles: seq<Cycle>, laps: seq<Lap>, to: State) {
    && Chain(config, from.store.entry, |from.store.calls|, cycles, laps)
    && to.store.entry == EntryBefore(from.store.entry, laps, |laps|)
    && |to.store.calls| == IdBefore(|from.store.calls|, laps, |laps|)
    && to.tally == Tallied(from.tally, cycles, laps)
  }

  /** One more lap leads from `from` to `to`. */
  ghost predicate LapLeads(config: Config, from: State, c: Cycle, lap: Lap, to: State) {
    && lap.id == |from.store.calls| && LapOk(config, from.store.entry, c, lap)
    && to.store.entry == lap.after && |to.store.calls| == lap.NextId()
    && to.tally == LapTally(from.tally, c, lap)
  }

  lemma LeadsOn(config: Config, from: State, cycles: seq<Cycle>, laps: seq<Lap>, mid: State, lap: Lap, to: State)
    requires Leads(config, from, cycles, laps, mid) && |laps| < |cycles|
    requires LapLeads(config, mid, cycles[|laps|], lap, to)
    ensures Leads(config, from, cycles, laps + [lap], to)
  {
    hide LapOk, LapTally, Chain;
    ChainGrows(config, from.store.entry, |from.store.calls|, cycles, laps, lap);
    assert (laps + [lap])[..|laps|] == laps;
    assert |laps| <= |cycles|;
  }

  /** A shutdown and a close between cycles change neither store nor counters. */
  lemma SameLap(config: Config, from: State, c: Cycle, lap: Lap, ran: State, to: State)
    requires LapLeads(config, from, c, lap, ran) && ran.store == to.store && ran.tally == to.tally
    ensures LapLeads(config, from, c, lap, to)
  {
    hide LapOk, LapTally;
  }

  lemma SameEnd(config: Config, from: State, cycles: seq<Cycle>, laps: seq<Lap>, before: State, to: State)
    requires Leads(config, from, cycles, laps, before) && before.store == to.store && before.tally == to.tally
    ensures Leads(config, from, cycles, laps, to)
  {
    hide Chain, Tallied;
  }

  lemma NoLapsYet(config: Config, s: State, cycles: seq<Cycle>, quitAfter: nat)
    ensures Leads(config, s, cycles, [], s) && StoppedBy([], quitAfter, false)
  {
  }

  /** A shutdown was requested in the last lap or while idle after it, and not before. */
  predicate StoppedBy(laps: seq<Lap>, quitAfter: nat, stopped: bool) {
    && (forall k | 0 <= k < |laps| - 1 :: !laps[k].stops && k + 1 != quitAfter)
    && (stopped <==> laps != [] && (laps[|laps| - 1].stops || |laps| == quitAfter))
  }

  lemma StoppedByNext(laps: seq<Lap>, quitAfter: nat, lap: Lap)
    requires StoppedBy(laps, quitAfter, false)
    ensures StoppedBy(laps + [lap], quitAfter, lap.stops || |laps| + 1 == quitAfter)
  {
  }

  // ---- Eviction in the running service ----

  /** The cycles start at least `gapMs` apart, the first not before `startMs`. */
  predicate CyclesSpaced(cycles: seq<Cycle>, startMs: int, gapMs: nat) {
    && (cycles != [] ==> cycles[0].nowMs >= startMs)
    && (forall k | 0 < k < |cycles| :: cycles[k].nowMs >= cycles[k - 1].nowMs + gapMs)
  }

  /** Reads are honest and clears work. */
  predicate StoreWorks(c: Cycle) {
    !c.misread && c.clearFault.Works?
  }

  function RoundsOf(cycles: seq<Cycle>, laps: seq<Lap>, n: nat): seq<Round>
    requires n <= |laps| <= |cycles|
  {
    seq(n, k requires 0 <= k < n => Round(cycles[k].nowMs, laps[k].polled))
  }

  /** A cycle that keeps the record starts nothing and leaves it as it was. */
  lemma KeptRecordBlocks(config: Config, r: Record, c: Cycle, lap: Lap)
    requires LapOk(config, Held(r), c, lap) && StoreWorks(c) && lap.kept != Absent
    ensures lap.kept == Held(r) && !lap.started && lap.after == Held(r)
  {
  }

  /** While every cycle keeps the record, it is the same record, and nothing is started over it. */
  lemma {:induction false} KeptLaps(config: Config, r: Record, id: nat, cycles: seq<Cycle>, laps: seq<Lap>, n: nat)
    requires Chain(config, Held(r), id, cycles, laps) && n <= |laps|
    requires forall k: nat | k < n :: StoreWorks(cycles[k]) && laps[k].kept != Absent
    ensures EntryBefore(Held(r), laps, n) == Held(r)
    ensures forall k: nat | k < n ::
              && LapOk(config, Held(r), cycles[k], laps[k])
              && laps[k].kept == Held(r) && !laps[k].started && laps[k].after == Held(r)
  {
    hide LapOk, StoreWorks;
    if n > 0 {
      KeptLaps(config, r, id, cycles, laps, n - 1);
      assert LapOk(config, Held(r), cycles[n - 1], laps[n - 1]);
      KeptRecordBlocks(config, r, cycles[n - 1], laps[n - 1]);
    }
  }

  /** Such cycles are reconciliation rounds over the record. */
  lemma {:induction false} KeptRounds(config: Config, r: Record, cycles: seq<Cycle>, laps: seq<Lap>, n: nat)
    requires n <= |laps| <= |cycles|
    requires forall k: nat | k < n ::
               LapOk(config, Held(r), cycles[k], laps[k]) && StoreWorks(cycles[k]) && laps[k].kept == Held(r)
    ensures Rounds(Held(r), RoundsOf(cycles, laps, n)) == Held(r)
  {
    hide LapOk, StoreWorks, Reconciliation;
    if n > 0 {
      KeptRounds(config, r, cycles, laps, n - 1);
      LapReconciles(config, Held(r), cycles[n - 1], laps[n - 1]);
      var rounds := RoundsOf(cycles, laps, n);
      assert rounds[..n - 1] == RoundsOf(cycles, laps, n - 1);
    }
  }

  lemma LapReconciles(config: Config, before: Entry, c: Cycle, lap: Lap)
    requires LapOk(config, before, c, lap) && StoreWorks(c)
    ensures lap.kept == Reconciliation(before, c.nowMs, false, Works, lap.polled).1
  {
  }

  /** A lap whose reconciliation emptied the store. */
  predicate EmptiesAt(laps: seq<Lap>, k: nat) {
    k < |laps| && laps[k].kept == Absent
  }

  /**
    Eviction breaks the deadlock of the running service: with cycles at least `gapMs` apart, honest reads and working
    clears, one of the first floor(24 h / gap) + 2 cycles empties the store, whatever the node reports; until then the
    record stays and no bridge is started.
  */
  lemma RecordIsGoneWithin(config: Config, r: Record, id: nat, cycles: seq<Cycle>, laps: seq<Lap>, gapMs: nat)
    returns (k: nat)
    requires gapMs > 0 && Chain(config, Held(r), id, cycles, laps) && CyclesSpaced(cycles, r.submittedAtMs, gapMs)
    requires forall k: nat | k < |laps| :: StoreWorks(cycles[k])
    requires |laps| >= RECONCILIATION_MAX_AGE_MS / gapMs + 2
    ensures k <= RECONCILIATION_MAX_AGE_MS / gapMs + 1 && EmptiesAt(laps, k)
    ensures forall j: nat | j < k :: laps[j].after == Held(r) && !laps[j].started
  {
    hide LapOk, Reconciliation, StoreWorks, CyclesSpaced, Rounds;
    var bound := RECONCILIATION_MAX_AGE_MS / gapMs + 2;
    assert |laps| <= |cycles|;
    hide Chain;
    k := 0;
    while k < bound && laps[k].kept != Absent
      invariant k <= bound
      invariant forall j: nat | j < k :: laps[j].kept != Absent
    {
      k := k + 1;
    }
    KeptLaps(config, r, id, cycles, laps, k);
    if k == bound {
      KeptRounds(config, r, cycles, laps, bound);
      RoundsSpaced(cycles, laps, r.submittedAtMs, gapMs, bound);
      EvictionBoundsSurvival(r, RoundsOf(cycles, laps, bound), gapMs);
    }
  }

  lemma RoundsSpaced(cycles: seq<Cycle>, laps: seq<Lap>, startMs: int, gapMs: nat, n: nat)
    requires CyclesSpaced(cycles, startMs, gapMs) && n <= |laps| <= |cycles|
    ensures Spaced(RoundsOf(cycles, laps, n), startMs, gapMs)
  {
  }
}
