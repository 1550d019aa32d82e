/** The promises of the top-up daemon over every run. */
module ProtocolProperties {
  import opened Outcomes
  import opened Protocol
  import opened ProtocolSafety

  /** Some run of the daemon over a fresh database ends here. */
  ghost predicate Reachable(threshold: int, s: State) {
    exists es :: Run(threshold, INITIAL, es) == Some(s)
  }

  lemma ReachableKeepsInv(threshold: int, s: State)
    requires Reachable(threshold, s)
    ensures Inv(s)
  {
    var es :| Run(threshold, INITIAL, es) == Some(s);
    RunKeepsInv(threshold, INITIAL, es);
  }

  // ---- A tracked bridge is never duplicated ----

  predicate Tracked(fate: Fate) {
    fate.Unsaved? || fate.Saved?
  }

  ghost predicate TwoTracked(s: State) {
    exists i, j :: 0 <= i < j < |s.store.calls| && Tracked(s.store.calls[i]) && Tracked(s.store.calls[j])
  }

  /** The action calls the portal, starts a bridge call, or writes a record. */
  predicate Bridges(s: State, s': State, action: Action) {
    || action.CallPortal?
    || s'.tally.started > s.tally.started
    || (action.Commit? && s'.bodies != [] && s'.bodies[0].Saving?)
  }

  lemma TwoTrackedInInvariant(s: State)
    requires Inv(s)
    ensures TwoTracked(s) <==> s.misread && s.bodies != [] && s.bodies[0].Saving?
  {
    if s.misread && s.bodies != [] && s.bodies[0].Saving? {
      var i, j := s.store.entry.record.id, s.bodies[0].record.id;
      assert Tracked(s.store.calls[i]) && Tracked(s.store.calls[j]) && i != j;
    }
  }

  /**
    Two bridge calls are tracked at once exactly while a cycle that misread the stored record has a new one unsaved.
  */
  lemma TwoTrackedExactlyAfterMisread(threshold: int, s: State)
    requires Reachable(threshold, s)
    ensures TwoTracked(s) <==> s.misread && s.bodies != [] && s.bodies[0].Saving?
  {
    ReachableKeepsInv(threshold, s);
    TwoTrackedInInvariant(s);
  }

  /** No portal call and no write happens over a well-formed record, unless this cycle misread it. */
  lemma BridgesOverRecordExactlyAfterMisread(threshold: int, s: State, i: nat, action: Action)
    requires Reachable(threshold, s)
    requires Next(threshold, s, Body(i, action)).Some?
    requires Bridges(s, Next(threshold, s, Body(i, action)).value, action)
    ensures s.store.entry.Held? <==> s.misread
  {
    ReachableKeepsInv(threshold, s);
  }

  lemma NextStaysHonest(threshold: int, s: State, e: Event)
    requires !s.misread && Next(threshold, s, e).Some?
    requires e.Body? && e.action.Read? && e.action.threw ==> !s.store.entry.Held?
    ensures !Next(threshold, s, e).value.misread
  {
  }

  lemma {:induction false} HonestRunsNeverMisread(threshold: int, s: State, es: seq<Event>)
    requires !s.misread && HonestReads(threshold, s, es) && Run(threshold, s, es).Some?
    ensures !Run(threshold, s, es).value.misread
    decreases |es|
  {
    if es != [] {
      NextStaysHonest(threshold, s, es[0]);
      HonestRunsNeverMisread(threshold, Next(threshold, s, es[0]).value, es[1..]);
    }
  }

  lemma {:induction false} RunAppend(threshold: int, s: State, es: seq<Event>, fs: seq<Event>)
    requires Run(threshold, s, es).Some?
    ensures Run(threshold, s, es + fs) == Run(threshold, Run(threshold, s, es).value, fs)
    decreases |es|
  {
    if es == [] {
      assert es + fs == fs;
    } else {
      assert (es + fs)[1..] == es[1..] + fs;
      RunAppend(threshold, Next(threshold, s, es[0]).value, es[1..], fs);
    }
  }

  /** A run given by the states it passes. */
  lemma {:induction false} RunAlong(threshold: int, states: seq<State>, es: seq<Event>)
    requires |states| == |es| + 1
    requires forall k | 0 <= k < |es| :: Next(threshold, states[k], es[k]) == Some(states[k + 1])
    ensures Run(threshold, states[0], es) == Some(states[|es|])
    decreases |es|
  {
    if es != [] {
      assert Next(threshold, states[0], es[0]) == Some(states[1]);
      RunAlong(threshold, states[1..], es[1..]);
    }
  }

  /** The only cycle body of a process that is not stopping stands at `pc`. */
  predicate AloneAt(s: State, pc: Pc) {
    s.up && s.bodies == [pc] && s.loop == Loop(true, false, false, false, false)
  }

  /** Events that take an admitted check with a low balance to a resolved bridge call. */
  function BridgeEvents(balance: int, atMs: int): seq<Event> {
    [Body(0, Check), Body(0, Balance(Some(balance))), Body(0, CallPortal), Body(0, Bridged(true, atMs))]
  }

  /** An admitted check that finds a low balance can go all the way to a resolved bridge call. */
  lemma AdmittedCheckBridges(threshold: int, s: State, balance: int, atMs: int)
    requires AloneAt(s, Passed) && !s.bridgeInFlight && balance < threshold
    ensures Run(threshold, s, BridgeEvents(balance, atMs)).Some?
    ensures Run(threshold, s, BridgeEvents(balance, atMs)).value.store ==
            s.store.(calls := s.store.calls + [Unsaved])
  {
    var es := BridgeEvents(balance, atMs);
    var s1 := Next(threshold, s, es[0]).value;
    var s2 := Next(threshold, s1, es[1]).value;
    var s3 := Next(threshold, s2, es[2]).value;
    var s4 := Next(threshold, s3, es[3]).value;
    RunAlong(threshold, [s, s1, s2, s3, s4], es);
  }

  /**
    Honest reads are needed: whenever a cycle misreads a stored record and its clear fails, a low balance makes it
    bridge again while the first record is still stored.
  */
  lemma MisreadBridgesTwice(threshold: int, s: State, balance: int, atMs: int)
    requires Inv(s) && AloneAt(s, Reconciling) && s.store.entry.Held? && balance < threshold
    ensures var es := [Body(0, Read(atMs, true)), Body(0, Fail)] + BridgeEvents(balance, atMs);
            Run(threshold, s, es).Some? && TwoTracked(Run(threshold, s, es).value)
  {
    var es := [Body(0, Read(atMs, true)), Body(0, Fail)];
    var s1 := Next(threshold, s, es[0]).value;
    var s2 := Next(threshold, s1, es[1]).value;
    RunAlong(threshold, [s, s1, s2], es);
    AdmittedCheckBridges(threshold, s2, balance, atMs);
    RunAppend(threshold, s, es, BridgeEvents(balance, atMs));
    var i, calls := s.store.entry.record.id, Run(threshold, s2, BridgeEvents(balance, atMs)).value.store.calls;
    assert Tracked(calls[i]) && Tracked(calls[|calls| - 1]) && i < |calls| - 1;
  }

  /**
    A failed write does not stop the daemon: the record is lost, and the next cycle bridges again if the balance is
    still low.
  */
  lemma LostWriteBridgesAgain(threshold: int, s: State, r: Record, balance: int, nowMs: int)
    requires Inv(s) && AloneAt(s, Saving(r, true, false)) && s.store.entry == Absent && balance < threshold
    ensures var es := [Body(0, Fail), Body(0, Released), Body(0, Finally), Tick, Body(0, Read(nowMs, false))] +
                      BridgeEvents(balance, nowMs);
            && Run(threshold, s, es).Some?
            && Run(threshold, s, es).value.store.calls == s.store.calls[r.id := Lost] + [Unsaved]
  {
    var es := [Body(0, Fail), Body(0, Released), Body(0, Finally), Tick, Body(0, Read(nowMs, false))];
    var s1 := Next(threshold, s, es[0]).value;
    var s2 := Next(threshold, s1, es[1]).value;
    var s3 := Next(threshold, s2, es[2]).value;
    var s4 := Next(threshold, s3, es[3]).value;
    var s5 := Next(threshold, s4, es[4]).value;
    RunAlong(threshold, [s, s1, s2, s3, s4, s5], es);
    AdmittedCheckBridges(threshold, s5, balance, nowMs);
    RunAppend(threshold, s, es, BridgeEvents(balance, nowMs));
  }

  // ---- Steps that leave most of the state alone ----

  /** Nothing is started, submitted or recorded, and the loop flags stay. */
  predicate Quiet(s: State, s': State) {
    && s'.tally.started == s.tally.started && s'.tally.submitted == s.tally.submitted
    && |s'.store.calls| == |s.store.calls| && |s'.bodies| == |s.bodies|
    && s'.loop == s.loop && s'.up == s.up
  }

  lemma CommitIsQuiet(s: State)
    requires |s.bodies| == 1
    ensures CommitStep(s, 0).Some? ==> Quiet(s, CommitStep(s, 0).value)
  {
  }

  lemma StoreStepIsQuiet(s: State)
    requires |s.bodies| == 1
    ensures CommitStep(s, 0).Some? ==> Quiet(s, CommitStep(s, 0).value)
    ensures AckStep(s, 0).Some? ==> Quiet(s, AckStep(s, 0).value) && AckStep(s, 0).value.store == s.store
    ensures FailStep(s, 0).Some? ==> Quiet(s, FailStep(s, 0).value)
  {
    hide CommitStep;
    CommitIsQuiet(s);
  }

  lemma PollStepIsQuiet(s: State, status: Status, observed: int)
    requires |s.bodies| == 1
    ensures PollEndedStep(s, 0, status, observed).Some? ==>
              var s' := PollEndedStep(s, 0, status, observed).value;
              Quiet(s, s') && s'.store == s.store
  {
  }

  // ---- The classes of a bridge call ----

  predicate Final(fate: Fate) {
    !Tracked(fate)
  }

  /** A class may stay, or move from unsaved to saved or lost, or from saved to gone. */
  predicate Forward(was: Fate, became: Fate) {
    || became == was
    || (was == Unsaved && (became == Saved || became == Lost || became == Unreadable))
    || (was == Saved && (became == Cleared || became.Evicted? || became == Unreadable || became == Overwritten))
  }

  predicate ForwardAt(s: State, s': State, k: nat) {
    k < |s.store.calls| ==> k < |s'.store.calls| && Forward(s.store.calls[k], s'.store.calls[k])
  }

  lemma StoreStepMovesForward(s: State, k: nat)
    requires Inv(s) && |s.bodies| == 1
    ensures CommitStep(s, 0).Some? ==> ForwardAt(s, CommitStep(s, 0).value, k)
    ensures FailStep(s, 0).Some? ==> ForwardAt(s, FailStep(s, 0).value, k)
  {
  }

  /** One step moves every class only forward. */
  lemma FateMovesForward(threshold: int, s: State, e: Event, k: nat)
    requires Inv(s) && Next(threshold, s, e).Some?
    ensures ForwardAt(s, Next(threshold, s, e).value, k)
  {
    hide CommitStep, AckStep, FailStep, PollEndedStep;
    if e.Body? {
      StoreStepMovesForward(s, k);
      StoreStepIsQuiet(s);
      if e.action.PollEnded? {
        PollStepIsQuiet(s, e.action.status, e.action.observed);
      }
    }
  }

  /** Over any run no bridge call is forgotten and a call that left the first two classes keeps its class. */
  lemma {:induction false} FinalFateStays(threshold: int, s: State, es: seq<Event>, k: nat)
    requires Inv(s) && Run(threshold, s, es).Some? && k < |s.store.calls|
    ensures k < |Run(threshold, s, es).value.store.calls|
    ensures Final(s.store.calls[k]) ==> Run(threshold, s, es).value.store.calls[k] == s.store.calls[k]
    decreases |es|
  {
    if es != [] {
      FateMovesForward(threshold, s, es[0], k);
      NextKeepsInv(threshold, s, es[0]);
      FinalFateStays(threshold, Next(threshold, s, es[0]).value, es[1..], k);
    }
  }

  /** The first two classes mean what they say, and no record aged at most 24 hours is ever evicted. */
  lemma ClassesMeanWhatTheySay(threshold: int, s: State, k: nat)
    requires Reachable(threshold, s) && k < |s.store.calls|
    ensures s.store.calls[k] == Saved <==> s.store.entry.Held? && s.store.entry.record.id == k
    ensures s.store.calls[k] == Unsaved <==>
              s.bodies != [] && s.bodies[0].Saving? && !s.bodies[0].committed && s.bodies[0].record.id == k
    ensures s.store.calls[k].Evicted? ==> s.store.calls[k].ageMs > RECONCILIATION_MAX_AGE_MS
  {
    ReachableKeepsInv(threshold, s);
  }

  // ---- Shutdown ----

  lemma OneCycleAtATime(threshold: int, s: State)
    requires Reachable(threshold, s)
    ensures |s.bodies| <= 1 && (s.bodies != [] <==> s.loop.inFlight)
    ensures s.bridgeInFlight ==> s.bodies != [] && InBridgingSection(s.bodies[0])
  {
    ReachableKeepsInv(threshold, s);
  }

  predicate Exits(es: seq<Event>) {
    Exit in es
  }

  /** Once a shutdown is requested the process starts no bridge call any more. */
  lemma {:induction false} NoBridgeAfterShutdown(threshold: int, s: State, es: seq<Event>)
    requires Inv(s) && s.up && s.loop.aborted && !Exits(es) && Run(threshold, s, es).Some?
    ensures Run(threshold, s, es).value.tally.started == s.tally.started
    decreases |es|
  {
    if es != [] {
      assert es[0] in es;
      NextKeepsInv(threshold, s, es[0]);
      AbortSticks(threshold, s, es[0]);
      assert !Exits(es[1..]);
      NoBridgeAfterShutdown(threshold, Next(threshold, s, es[0]).value, es[1..]);
    }
  }

  lemma AbortSticks(threshold: int, s: State, e: Event)
    requires Inv(s) && s.up && s.loop.aborted && e != Exit && Next(threshold, s, e).Some?
    ensures var s' := Next(threshold, s, e).value;
            && s'.up && s'.loop.aborted && s'.tally.started == s.tally.started
            && |s'.bodies| <= |s.bodies|
            && (s.loop.dbClosed ==> s'.loop.dbClosed)
  {
    hide CommitStep, AckStep, FailStep, PollEndedStep;
    if e.Body? {
      StoreStepIsQuiet(s);
      if e.action.PollEnded? {
        PollStepIsQuiet(s, e.action.status, e.action.observed);
      }
    }
  }

  /** Once the database is closed no cycle body is left and nothing the process does touches the store. */
  lemma {:induction false} NoStoreOperationAfterClose(threshold: int, s: State, es: seq<Event>)
    requires Inv(s) && s.loop.dbClosed && !Exits(es) && Corrupt !in es && Run(threshold, s, es).Some?
    ensures s.bodies == [] && forall e | e in es :: !e.Body?
    ensures Run(threshold, s, es).value.store == s.store
    decreases |es|
  {
    if es != [] {
      assert es[0] in es;
      NextKeepsInv(threshold, s, es[0]);
      var s' := Next(threshold, s, es[0]).value;
      assert s'.store == s.store && s'.loop.dbClosed;
      assert forall e | e in es[1..] :: e in es;
      NoStoreOperationAfterClose(threshold, s', es[1..]);
      assert forall e | e in es :: e == es[0] || e in es[1..];
    }
  }

  // ---- Bridge event conservation ----

  /** Between cycles, or outside the bridging section, every bridge call of the process is counted exactly once. */
  lemma BridgeEventsAddUp(threshold: int, s: State)
    requires Reachable(threshold, s)
    requires s.bodies == [] || !Uncounted(s.bodies[0])
    ensures var t := s.tally;
            && t.confirmed + t.timeout + t.aborted + t.failed == t.started
            && t.confirmed + t.timeout + t.aborted <= t.submitted <= t.started
  {
    ReachableKeepsInv(threshold, s);
  }

  /** Within one process, `submitted` grows with every bridge call that resolves. */
  lemma {:induction false} SubmittedCountsResolved(threshold: int, s: State, es: seq<Event>)
    requires Inv(s) && Run(threshold, s, es).Some? && !Exits(es) && Start !in es
    ensures var s' := Run(threshold, s, es).value;
            s'.tally.submitted - s.tally.submitted == |s'.store.calls| - |s.store.calls|
    decreases |es|
  {
    if es != [] {
      assert es[0] in es;
      var s' := Next(threshold, s, es[0]).value;
      SubmittedStep(threshold, s, es[0]);
      NextKeepsInv(threshold, s, es[0]);
      assert forall e | e in es[1..] :: e in es;
      SubmittedCountsResolved(threshold, s', es[1..]);
    }
  }

  /** Exactly the bridge calls that resolve are recorded and counted as submitted. */
  lemma SubmittedStep(threshold: int, s: State, e: Event)
    requires Inv(s) && Next(threshold, s, e).Some?
    ensures var s' := Next(threshold, s, e).value;
            var resolved := if e.Body? && e.action.Bridged? then 1 else 0;
            && |s'.store.calls| == |s.store.calls| + resolved
            && (e != Exit && e != Start ==> s'.tally.submitted == s.tally.submitted + resolved)
  {
    hide CommitStep, AckStep, FailStep, PollEndedStep;
    if e.Body? {
      StoreStepIsQuiet(s);
      if e.action.PollEnded? {
        PollStepIsQuiet(s, e.action.status, e.action.observed);
      }
    }
  }

  /** What the counters of a process count. */
  datatype Kind = Starts | Submits | Ends(status: Status) | Fails

  /**
    A low balance found while not stopping, a bridge that returned, the end of a poll for it, or an exception of the
    bridge, the write or that poll.
  */
  predicate IsA(kind: Kind, threshold: int, s: State, e: Event) {
    && e.Body? && e.i < |s.bodies|
    && match kind
       case Starts =>
         e.action.Balance? && e.action.balance.Some? && e.action.balance.value < threshold && !s.loop.stopping
       case Submits => e.action.Bridged?
       case Ends(status) => s.bodies[e.i].Polling? && e.action.PollEnded? && e.action.status == status
       case Fails =>
         || e.action.BridgeThrew?
         || (e.action.Fail? && s.bodies[e.i].Saving?)
         || (e.action.PollThrew? && s.bodies[e.i].Polling?)
  }

  function Times(kind: Kind, threshold: int, s: State, es: seq<Event>): nat
    requires Run(threshold, s, es).Some?
    decreases |es|
  {
    if es == [] then 0
    else
      (if IsA(kind, threshold, s, es[0]) then 1 else 0)
      + Times(kind, threshold, Next(threshold, s, es[0]).value, es[1..])
  }

  lemma StoreStepCounts(s: State)
    requires |s.bodies| == 1
    ensures CommitStep(s, 0).Some? ==> CommitStep(s, 0).value.tally == s.tally
    ensures AckStep(s, 0).Some? ==> AckStep(s, 0).value.tally == s.tally
    ensures FailStep(s, 0).Some? ==>
              FailStep(s, 0).value.tally == s.tally.(failed := s.tally.failed + if s.bodies[0].Saving? then 1 else 0)
  {
  }

  lemma PollStepCounts(s: State, status: Status, observed: int)
    requires |s.bodies| == 1 && PollEndedStep(s, 0, status, observed).Some?
    ensures var t, t' := s.tally, PollEndedStep(s, 0, status, observed).value.tally;
            && t'.started == t.started && t'.submitted == t.submitted && t'.failed == t.failed
            && t'.confirmed == t.confirmed + (if s.bodies[0].Polling? && status == Confirmed then 1 else 0)
            && t'.timeout == t.timeout + (if s.bodies[0].Polling? && status == Timeout then 1 else 0)
            && t'.aborted == t.aborted + (if s.bodies[0].Polling? && status == Aborted then 1 else 0)
  {
  }

  lemma CountedStep(threshold: int, s: State, e: Event)
    requires Inv(s) && Next(threshold, s, e).Some? && e != Exit && e != Start
    ensures var t, t' := s.tally, Next(threshold, s, e).value.tally;
            && t'.started == t.started + (if IsA(Starts, threshold, s, e) then 1 else 0)
            && t'.submitted == t.submitted + (if IsA(Submits, threshold, s, e) then 1 else 0)
            && t'.confirmed == t.confirmed + (if IsA(Ends(Confirmed), threshold, s, e) then 1 else 0)
            && t'.timeout == t.timeout + (if IsA(Ends(Timeout), threshold, s, e) then 1 else 0)
            && t'.aborted == t.aborted + (if IsA(Ends(Aborted), threshold, s, e) then 1 else 0)
            && t'.failed == t.failed + (if IsA(Fails, threshold, s, e) then 1 else 0)
  {
    hide CommitStep, AckStep, FailStep, PollEndedStep;
    if e.Body? {
      StoreStepCounts(s);
      if e.action.PollEnded? {
        PollStepCounts(s, e.action.status, e.action.observed);
      }
    }
  }

  /** Over every run of one process each counter is the number of the events that it is for. */
  lemma {:induction false} CountersCountEvents(threshold: int, s: State, es: seq<Event>)
    requires Inv(s) && Run(threshold, s, es).Some? && !Exits(es) && Start !in es
    ensures var t, t' := s.tally, Run(threshold, s, es).value.tally;
            && t'.started == t.started + Times(Starts, threshold, s, es)
            && t'.submitted == t.submitted + Times(Submits, threshold, s, es)
            && t'.confirmed == t.confirmed + Times(Ends(Confirmed), threshold, s, es)
            && t'.timeout == t.timeout + Times(Ends(Timeout), threshold, s, es)
            && t'.aborted == t.aborted + Times(Ends(Aborted), threshold, s, es)
            && t'.failed == t.failed + Times(Fails, threshold, s, es)
    decreases |es|
  {
    if es != [] {
      assert es[0] in es;
      assert !Exits(es[1..]) && Start !in es[1..];
      CountedStep(threshold, s, es[0]);
      NextKeepsInv(threshold, s, es[0]);
      hide Next, Inv, IsA;
      CountersCountEvents(threshold, Next(threshold, s, es[0]).value, es[1..]);
    }
  }
}
