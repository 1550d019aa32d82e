/**
  The daemon together with the balance it watches. The balance changes only by credits of at least the threshold (the
  configuration demands a top-up amount of at least the threshold), reads of it are accurate, and the stored entry is
  misread only when it is ill-formed. Anything else may still happen: failed writes and clears, corruption, evictions,
  crashes, shutdowns.
*/
module TopupLedger {
  import opened Outcomes
  import opened Protocol
  import opened ProtocolSafety
  import opened ProtocolProperties

  datatype World = World(daemon: State, balance: int)

  datatype WorldEvent = Daemon(event: Event) | Credit(amount: int)

  /** What the daemon is told about the balance is true; a poll saw at most what is there by its end. */
  predicate Accurate(w: World, e: Event) {
    e.Body? ==>
      match e.action
      case Balance(Some(b)) => b == w.balance
      case PollEnded(status, observed) => observed <= w.balance
      case Read(_, threw) => threw ==> !w.daemon.store.entry.Held?
      case _ => true
  }

  function Step(threshold: int, w: World, we: WorldEvent): Option<World> {
    match we
    case Credit(amount) => if amount >= threshold then Some(w.(balance := w.balance + amount)) else None
    case Daemon(e) =>
      if !Accurate(w, e) then None
      else match Next(threshold, w.daemon, e)
        case None => None
        case Some(s) => Some(w.(daemon := s))
  }

  function History(threshold: int, w: World, es: seq<WorldEvent>): Option<World>
    decreases |es|
  {
    if es == [] then Some(w)
    else match Step(threshold, w, es[0])
      case None => None
      case Some(w') => History(threshold, w', es[1..])
  }

  /** A bridge call whose record the daemon lost without a confirmation. */
  predicate Loss(fate: Fate) {
    fate.Lost? || fate.Evicted? || fate.Unreadable? || fate.Overwritten?
  }

  function Losses(calls: seq<Fate>): nat {
    if calls == [] then 0 else Losses(calls[..|calls| - 1]) + if Loss(calls[|calls| - 1]) then 1 else 0
  }

  /** At most one bridge call is not a loss. */
  ghost predicate OneKept(calls: seq<Fate>) {
    forall i, j | 0 <= i < j < |calls| :: Loss(calls[i]) || Loss(calls[j])
  }

  ghost predicate NoneKept(calls: seq<Fate>) {
    forall i | 0 <= i < |calls| :: Loss(calls[i])
  }

  ghost predicate NoneConfirmed(calls: seq<Fate>) {
    forall i | 0 <= i < |calls| :: calls[i] != Cleared
  }

  function Baselines(s: State): set<int> {
    (if s.store.entry.Held? then {s.store.entry.record.baseline} else {}) +
    if s.bodies == [] then {} else
      match s.bodies[0]
      case Bridging(baseline, _) => {baseline}
      case Saving(r, _, _) => {r.baseline}
      case Polling(r) => {r.baseline}
      case Settling(r) => {r.baseline}
      case _ => {}
  }

  predicate Confirming(pc: Pc) {
    pc.Clearing? && (pc.reason.Reconciled? || pc.reason.Settled?)
  }

  /** Either nothing was ever credited, or the balance is at or above the threshold for good. */
  ghost predicate WorldInv(threshold: int, initial: int, w: World) {
    var s := w.daemon;
    && Inv(s) && !s.misread
    && (w.balance == initial || (w.balance > initial && w.balance >= threshold))
    && (forall b | b in Baselines(s) :: b >= initial)
    && OneKept(s.store.calls)
    && (w.balance < threshold ==> NoneConfirmed(s.store.calls))
    && (s.bodies != [] && Confirming(s.bodies[0]) ==> w.balance >= threshold)
    && (s.bodies != [] && s.bodies[0].Bridging? ==> NoneKept(s.store.calls))
  }

  lemma LossesAreFinal(threshold: int, s: State, e: Event)
    requires Inv(s) && Next(threshold, s, e).Some?
    ensures var calls, calls' := s.store.calls, Next(threshold, s, e).value.store.calls;
            && |calls'| == |calls| + (if e.Body? && e.action.Bridged? then 1 else 0)
            && (forall k | 0 <= k < |calls| :: Loss(calls[k]) ==> Loss(calls'[k]))
  {
    hide Next;
    SubmittedStep(threshold, s, e);
    var calls, calls' := s.store.calls, Next(threshold, s, e).value.store.calls;
    forall k | 0 <= k < |calls| ensures Loss(calls[k]) ==> Loss(calls'[k]) {
      FateMovesForward(threshold, s, e, k);
    }
  }

  /** A record is cleared as confirmed only by a body that is confirming. */
  lemma ClearedOnlyByConfirming(threshold: int, s: State, e: Event)
    requires Inv(s) && Next(threshold, s, e).Some? && NoneConfirmed(s.store.calls)
    requires !(e == Body(0, Commit) && s.bodies != [] && Confirming(s.bodies[0]))
    ensures NoneConfirmed(Next(threshold, s, e).value.store.calls)
  {
    hide CommitStep, AckStep, FailStep, PollEndedStep;
    if e.Body? {
      StoreStepConfirmsNothing(s);
      StoreStepIsQuiet(s);
      if e.action.PollEnded? {
        PollStepIsQuiet(s, e.action.status, e.action.observed);
      }
    }
  }

  lemma StoreStepConfirmsNothing(s: State)
    requires |s.bodies| == 1 && NoneConfirmed(s.store.calls)
    ensures CommitStep(s, 0).Some? && !Confirming(s.bodies[0]) ==> NoneConfirmed(CommitStep(s, 0).value.store.calls)
    ensures FailStep(s, 0).Some? ==> NoneConfirmed(FailStep(s, 0).value.store.calls)
  {
  }

  lemma StepKeepsBaselines(threshold: int, initial: int, w: World, e: Event)
    requires WorldInv(threshold, initial, w) && Accurate(w, e) && Next(threshold, w.daemon, e).Some?
    ensures forall b | b in Baselines(Next(threshold, w.daemon, e).value) :: b >= initial
  {
    hide CommitStep, AckStep, FailStep;
    if e.Body? {
      StoreStepAddsNoBaseline(w.daemon);
    }
  }

  lemma CommitAddsNoBaseline(s: State)
    requires |s.bodies| == 1
    ensures CommitStep(s, 0).Some? ==> Baselines(CommitStep(s, 0).value) <= Baselines(s)
  {
  }

  lemma StoreStepAddsNoBaseline(s: State)
    requires |s.bodies| == 1
    ensures CommitStep(s, 0).Some? ==> Baselines(CommitStep(s, 0).value) <= Baselines(s)
    ensures AckStep(s, 0).Some? ==> Baselines(AckStep(s, 0).value) <= Baselines(s)
    ensures FailStep(s, 0).Some? ==> Baselines(FailStep(s, 0).value) <= Baselines(s)
  {
    hide CommitStep;
    CommitAddsNoBaseline(s);
  }

  predicate StartsNothing(s: State, s': State) {
    && |s.bodies| == |s'.bodies| == 1
    && (Confirming(s'.bodies[0]) ==> Confirming(s.bodies[0]))
    && !s'.bodies[0].Bridging?
  }

  lemma CommitStartsNothing(s: State)
    requires |s.bodies| == 1
    ensures CommitStep(s, 0).Some? ==> StartsNothing(s, CommitStep(s, 0).value)
  {
  }

  /** A store step starts neither a bridge call nor a confirming clear. */
  lemma StoreStepStartsNothing(s: State)
    requires |s.bodies| == 1
    ensures CommitStep(s, 0).Some? ==> StartsNothing(s, CommitStep(s, 0).value)
    ensures AckStep(s, 0).Some? ==> StartsNothing(s, AckStep(s, 0).value)
    ensures FailStep(s, 0).Some? ==> StartsNothing(s, FailStep(s, 0).value)
  {
    hide CommitStep;
    CommitStartsNothing(s);
  }

  /** A poll starts a confirming clear only after it observed more than the baseline of its record. */
  lemma PollConfirmsAboveBaseline(s: State, status: Status, observed: int)
    requires |s.bodies| == 1 && PollEndedStep(s, 0, status, observed).Some?
    ensures var s' := PollEndedStep(s, 0, status, observed).value;
            && |s'.bodies| == 1 && !s'.bodies[0].Bridging?
            && (Confirming(s'.bodies[0]) ==> exists b :: b in Baselines(s) && observed > b)
  {
    match s.bodies[0]
    case Settling(r) => assert r.baseline in Baselines(s);
    case Polling(r) => assert r.baseline in Baselines(s);
  }

  /** Bridging or confirming begins only where the balance allows it. */
  lemma StepKeepsStanding(threshold: int, initial: int, w: World, e: Event)
    requires threshold > 0 && WorldInv(threshold, initial, w) && Accurate(w, e) && Next(threshold, w.daemon, e).Some?
    ensures var s' := Next(threshold, w.daemon, e).value;
            && (s'.bodies != [] && Confirming(s'.bodies[0]) ==> w.balance >= threshold)
            && (s'.bodies != [] && s'.bodies[0].Bridging? && !(w.daemon.bodies != [] && w.daemon.bodies[0].Bridging?)
                ==> && e == Body(0, Balance(Some(w.balance))) && w.balance < threshold
                    && w.daemon.bodies == [ReadingBalance])
  {
    hide CommitStep, AckStep, FailStep, PollEndedStep, Baselines, OneKept, NoneKept, NoneConfirmed, FatesOk;
    if e.Body? {
      StoreStepStartsNothing(w.daemon);
      if e.action.PollEnded? {
        PollConfirmsAboveBaseline(w.daemon, e.action.status, e.action.observed);
      }
    }
  }

  /** When a check finds a low balance every earlier bridge call has been lost. */
  lemma LowBalanceMeansNoneKept(threshold: int, initial: int, w: World)
    requires WorldInv(threshold, initial, w) && w.daemon.bodies == [ReadingBalance] && w.balance < threshold
    ensures NoneKept(w.daemon.store.calls)
  {
    var s := w.daemon;
    forall k | 0 <= k < |s.store.calls| ensures Loss(s.store.calls[k]) {
      assert s.store.calls[k] != Saved && s.store.calls[k] != Unsaved && s.store.calls[k] != Cleared;
    }
  }

  lemma StepKeepsWorldInv(threshold: int, initial: int, w: World, we: WorldEvent)
    requires threshold > 0 && initial >= 0
    requires WorldInv(threshold, initial, w) && Step(threshold, w, we).Some?
    ensures WorldInv(threshold, initial, Step(threshold, w, we).value)
  {
    if we.Daemon? {
      var e, s := we.event, w.daemon;
      var s' := Next(threshold, s, e).value;
      NextKeepsInv(threshold, s, e);
      NextStaysHonest(threshold, s, e);
      StepKeepsBaselines(threshold, initial, w, e);
      StepKeepsStanding(threshold, initial, w, e);
      LossesAreFinal(threshold, s, e);
      if w.balance < threshold {
        ClearedOnlyByConfirming(threshold, s, e);
      }
      if e.Body? && e.action.Balance? && w.daemon.bodies == [ReadingBalance] && w.balance < threshold {
        LowBalanceMeansNoneKept(threshold, initial, w);
      }
      KeptAfterStep(threshold, s, e);
    }
  }

  lemma KeptAfterStep(threshold: int, s: State, e: Event)
    requires Inv(s) && Next(threshold, s, e).Some?
    requires OneKept(s.store.calls)
    requires s.bodies != [] && s.bodies[0].Bridging? ==> NoneKept(s.store.calls)
    ensures var s' := Next(threshold, s, e).value;
            && OneKept(s'.store.calls)
            && (NoneKept(s.store.calls) && !(e.Body? && e.action.Bridged?) ==> NoneKept(s'.store.calls))
  {
    LossesAreFinal(threshold, s, e);
  }

  lemma {:induction false} HistoryKeepsWorldInv(threshold: int, initial: int, w: World, es: seq<WorldEvent>)
    requires threshold > 0 && initial >= 0
    requires WorldInv(threshold, initial, w) && History(threshold, w, es).Some?
    ensures WorldInv(threshold, initial, History(threshold, w, es).value)
    decreases |es|
  {
    if es != [] {
      StepKeepsWorldInv(threshold, initial, w, es[0]);
      HistoryKeepsWorldInv(threshold, initial, Step(threshold, w, es[0]).value, es[1..]);
    }
  }

  lemma {:induction false} KeptBound(calls: seq<Fate>)
    ensures NoneKept(calls) ==> |calls| == Losses(calls)
    ensures OneKept(calls) ==> |calls| <= 1 + Losses(calls)
  {
    if calls != [] {
      var rest := calls[..|calls| - 1];
      KeptBound(rest);
      assert forall i | 0 <= i < |rest| :: rest[i] == calls[i];
    }
  }

  /**
    Over every history, however long, the number of bridges that resolved exceeds the number of records lost by at most
    one: a bridge is repeated only after its predecessor's record was lost, evicted, overwritten or made unreadable.
  */
  lemma BridgesBoundedByLosses(threshold: int, initial: int, es: seq<WorldEvent>)
    requires threshold > 0 && initial >= 0
    requires History(threshold, World(INITIAL, initial), es).Some?
    ensures var calls := History(threshold, World(INITIAL, initial), es).value.daemon.store.calls;
            |calls| <= 1 + Losses(calls)
  {
    HistoryKeepsWorldInv(threshold, initial, World(INITIAL, initial), es);
    KeptBound(History(threshold, World(INITIAL, initial), es).value.daemon.store.calls);
  }

  lemma {:induction false} NoLossesIffNoneLost(calls: seq<Fate>)
    ensures Losses(calls) == 0 <==> forall k | 0 <= k < |calls| :: !Loss(calls[k])
  {
    if calls != [] {
      NoLossesIffNoneLost(calls[..|calls| - 1]);
      assert forall k | 0 <= k < |calls| - 1 :: calls[k] == calls[..|calls| - 1][k];
    }
  }

  /** While no record is lost, at most one bridge is ever submitted. */
  lemma HealthyHistoryBridgesOnce(threshold: int, initial: int, es: seq<WorldEvent>)
    requires threshold > 0 && initial >= 0
    requires History(threshold, World(INITIAL, initial), es).Some?
    requires var calls := History(threshold, World(INITIAL, initial), es).value.daemon.store.calls;
             forall k | 0 <= k < |calls| :: !Loss(calls[k])
    ensures |History(threshold, World(INITIAL, initial), es).value.daemon.store.calls| <= 1
  {
    BridgesBoundedByLosses(threshold, initial, es);
    NoLossesIffNoneLost(History(threshold, World(INITIAL, initial), es).value.daemon.store.calls);
  }

  /** A confirmed bridge has been credited: the balance is at or above the threshold from then on. */
  lemma ConfirmedImpliesCredited(threshold: int, initial: int, es: seq<WorldEvent>)
    requires threshold > 0 && initial >= 0
    requires History(threshold, World(INITIAL, initial), es).Some?
    ensures var w := History(threshold, World(INITIAL, initial), es).value;
            Cleared in w.daemon.store.calls ==> w.balance >= threshold && (initial < threshold ==> w.balance > initial)
  {
    HistoryKeepsWorldInv(threshold, initial, World(INITIAL, initial), es);
  }
}
