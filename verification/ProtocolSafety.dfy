/** What every run of the top-up daemon keeps, whatever fails and wherever the process ends. */
module ProtocolSafety {
  import opened Outcomes
  import opened Protocol

  // ---- The invariant ----

  predicate InBridgingSection(pc: Pc) {
    pc.Bridging? || pc.Saving? || pc.Polling? || pc.Releasing? || (pc.Clearing? && pc.reason.Settled?)
  }

  /** The bridge call of this body has not been counted as settled or failed yet. */
  predicate Uncounted(pc: Pc) {
    pc.Bridging? || pc.Saving? || pc.Polling?
  }

  /** Reconciliation is over, or past its store operation, and no new record is written yet. */
  predicate PastReconciliation(pc: Pc) {
    match pc
    case Clearing(reason, committed) => reason.ReadFailed? || (committed && !reason.Settled?)
    case Passed => true
    case ReadingBalance => true
    case Bridging(_, _) => true
    case Saving(_, _, committed) => !committed
    case _ => false
  }

  /** One cycle at a time, and what the flags mean. */
  predicate CyclesOk(s: State) {
    && |s.bodies| <= 1
    && (s.loop.inFlight <==> s.bodies != [])
    && (s.loop.aborted ==> s.loop.stopping)
    && (s.loop.aborted && s.bodies != [] ==> s.loop.draining)
    && (s.loop.draining ==> s.bodies != [])
    && (s.loop.dbClosed ==> s.up && s.loop.aborted && s.bodies == [])
    && (s.bridgeInFlight <==> s.bodies != [] && InBridgingSection(s.bodies[0]))
    && (!s.up ==> s.bodies == [])
  }

  /** Every bridge call of this process is counted once, except one still under way. */
  predicate CountsOk(s: State) {
    var e := s.tally;
    var open := if s.bodies != [] && Uncounted(s.bodies[0]) then 1 else 0;
    var waiting := if s.bodies != [] && (s.bodies[0].Saving? || s.bodies[0].Polling?) then 1 else 0;
    && s.tally.started == e.confirmed + e.timeout + e.aborted + e.failed + open
    && e.confirmed + e.timeout + e.aborted + waiting <= e.submitted <= s.tally.started
    && (s.bodies != [] && s.bodies[0].Bridging? ==> e.submitted < s.tally.started)
  }

  predicate PcOk(s: State, pc: Pc) {
    && (pc.Saving? ==> pc.record.id < |s.store.calls|)
    && (pc.Saving? && !pc.committed ==> s.store.calls[pc.record.id] == Unsaved)
    && (PastReconciliation(pc) ==> (s.store.entry.Held? <==> s.misread))
    && (pc.Reconciling? || pc.Settling? || pc.Polling? || (pc.Saving? && pc.committed) ==> !s.misread)
    && (pc.Clearing? && !pc.reason.ReadFailed? ==> !s.misread)
    && (pc.Clearing? && pc.reason.TooOld? ==> pc.reason.ageMs > RECONCILIATION_MAX_AGE_MS)
  }

  /** The classes mean what their names say. */
  predicate FatesOk(s: State) {
    && (s.store.entry.Held? ==>
          && s.store.entry.record.id < |s.store.calls|
          && s.store.calls[s.store.entry.record.id] == Saved)
    && (forall k | 0 <= k < |s.store.calls| ::
          && (s.store.calls[k] == Saved ==> s.store.entry.Held? && s.store.entry.record.id == k)
          && (s.store.calls[k] == Unsaved ==>
                s.bodies != [] && s.bodies[0].Saving? && !s.bodies[0].committed && s.bodies[0].record.id == k)
          && (s.store.calls[k].Evicted? ==> s.store.calls[k].ageMs > RECONCILIATION_MAX_AGE_MS))
  }

  predicate Inv(s: State) {
    && CyclesOk(s)
    && CountsOk(s)
    && (s.bodies != [] ==> PcOk(s, s.bodies[0]))
    && FatesOk(s)
  }

  // One lemma for each kind of step, apart for the reconciliation and the bridging section.

  lemma ReadKeepsInv(s: State, now: int, threw: bool)
    requires Inv(s) && |s.bodies| == 1 && s.up && s.bodies[0].Reconciling?
    requires ReadStep(s, 0, now, threw).Some?
    ensures Inv(ReadStep(s, 0, now, threw).value)
  {
  }

  lemma CommitInReconciliationKeepsInv(s: State)
    requires Inv(s) && |s.bodies| == 1 && s.up && !InBridgingSection(s.bodies[0])
    requires CommitStep(s, 0).Some?
    ensures Inv(CommitStep(s, 0).value)
  {
  }

  lemma CommitInBridgingKeepsInv(s: State)
    requires Inv(s) && |s.bodies| == 1 && s.up && InBridgingSection(s.bodies[0])
    requires CommitStep(s, 0).Some?
    ensures Inv(CommitStep(s, 0).value)
  {
  }

  lemma AckInReconciliationKeepsInv(s: State)
    requires Inv(s) && |s.bodies| == 1 && s.up && !InBridgingSection(s.bodies[0])
    requires AckStep(s, 0).Some?
    ensures Inv(AckStep(s, 0).value)
  {
  }

  lemma AckInBridgingKeepsInv(s: State)
    requires Inv(s) && |s.bodies| == 1 && s.up && InBridgingSection(s.bodies[0])
    requires AckStep(s, 0).Some?
    ensures Inv(AckStep(s, 0).value)
  {
  }

  lemma FailInReconciliationKeepsInv(s: State)
    requires Inv(s) && |s.bodies| == 1 && s.up && !InBridgingSection(s.bodies[0])
    requires FailStep(s, 0).Some?
    ensures Inv(FailStep(s, 0).value)
  {
  }

  lemma FailInBridgingKeepsInv(s: State)
    requires Inv(s) && |s.bodies| == 1 && s.up && InBridgingSection(s.bodies[0])
    requires FailStep(s, 0).Some?
    ensures Inv(FailStep(s, 0).value)
  {
  }

  lemma PollInReconciliationKeepsInv(s: State, status: Status, observed: int)
    requires Inv(s) && |s.bodies| == 1 && s.up && !InBridgingSection(s.bodies[0])
    requires PollEndedStep(s, 0, status, observed).Some?
    ensures Inv(PollEndedStep(s, 0, status, observed).value)
  {
  }

  lemma PollInBridgingKeepsInv(s: State, status: Status, observed: int)
    requires Inv(s) && |s.bodies| == 1 && s.up && InBridgingSection(s.bodies[0])
    requires PollEndedStep(s, 0, status, observed).Some?
    ensures Inv(PollEndedStep(s, 0, status, observed).value)
  {
  }

  lemma CheckerKeepsInv(threshold: int, s: State, action: Action)
    requires Inv(s) && |s.bodies| == 1 && s.up
    requires action.Check? || action.Balance? || action.CallPortal? || action.Bridged?
    requires BodyStep(threshold, s, 0, action).Some?
    ensures Inv(BodyStep(threshold, s, 0, action).value)
  {
  }

  lemma BodyStepKeepsInv(threshold: int, s: State, action: Action)
    requires Inv(s) && |s.bodies| == 1 && s.up
    requires BodyStep(threshold, s, 0, action).Some?
    ensures Inv(BodyStep(threshold, s, 0, action).value)
  {
    hide ReadStep, CommitStep, AckStep, FailStep, PollEndedStep, BalanceStep;
    match action
    case Read(now, threw) =>
      ReadKeepsInv(s, now, threw);
    case Commit =>
      if InBridgingSection(s.bodies[0]) {
        CommitInBridgingKeepsInv(s);
      } else {
        CommitInReconciliationKeepsInv(s);
      }
    case Ack =>
      if InBridgingSection(s.bodies[0]) {
        AckInBridgingKeepsInv(s);
      } else {
        AckInReconciliationKeepsInv(s);
      }
    case Fail =>
      if InBridgingSection(s.bodies[0]) {
        FailInBridgingKeepsInv(s);
      } else {
        FailInReconciliationKeepsInv(s);
      }
    case PollEnded(status, observed) =>
      if InBridgingSection(s.bodies[0]) {
        PollInBridgingKeepsInv(s, status, observed);
      } else {
        PollInReconciliationKeepsInv(s, status, observed);
      }
    case PollThrew =>
    case BridgeThrew =>
    case Released =>
    case Finally =>
    case _ =>
      CheckerKeepsInv(threshold, s, action);
  }

  lemma NextKeepsInv(threshold: int, s: State, e: Event)
    requires Inv(s) && Next(threshold, s, e).Some?
    ensures Inv(Next(threshold, s, e).value)
  {
    hide BodyStep;
    if e.Body? {
      BodyStepKeepsInv(threshold, s, e.action);
    }
  }

  lemma {:induction false} RunKeepsInv(threshold: int, s: State, es: seq<Event>)
    requires Inv(s) && Run(threshold, s, es).Some?
    ensures Inv(Run(threshold, s, es).value)
    decreases |es|
  {
    if es != [] {
      NextKeepsInv(threshold, s, es[0]);
      RunKeepsInv(threshold, Next(threshold, s, es[0]).value, es[1..]);
    }
  }
}
