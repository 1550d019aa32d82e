/** What a requested shutdown still allows, over every run of the stopping process. */
module ProtocolShutdown {
  import opened Outcomes
  import opened Protocol
  import opened ProtocolSafety
  import opened ProtocolProperties
  import BridgeRetry

  // ---- Portal calls ----

  /** A bridge call started before a shutdown may still call the portal after it. */
  lemma PortalCallAfterShutdown(threshold: int, s: State, baseline: int, calls: nat)
    requires s.up && s.bodies == [Bridging(baseline, calls)] && calls < BridgeRetry.MAX_NONCE_RETRY_ATTEMPTS
    ensures Run(threshold, s, [Shutdown, Body(0, CallPortal)]).Some?
    ensures Run(threshold, s, [Shutdown, Body(0, CallPortal)]).value.loop.aborted
  {
    var es := [Shutdown, Body(0, CallPortal)];
    var s1 := Next(threshold, s, es[0]).value;
    RunAlong(threshold, [s, s1, Next(threshold, s1, es[1]).value], es);
  }

  predicate IsPortalCall(e: Event) {
    e.Body? && e.action.CallPortal?
  }

  function PortalCalls(es: seq<Event>): nat {
    if es == [] then 0 else (if IsPortalCall(es[0]) then 1 else 0) + PortalCalls(es[1..])
  }

  /** The portal calls the cycle under way has left. */
  function CallsLeft(s: State): nat {
    if AtBridge(s) && s.bodies[0].portalCalls <= BridgeRetry.MAX_NONCE_RETRY_ATTEMPTS
    then BridgeRetry.MAX_NONCE_RETRY_ATTEMPTS - s.bodies[0].portalCalls
    else 0
  }

  predicate AtBridge(s: State) {
    s.bodies != [] && s.bodies[0].Bridging?
  }

  lemma NoStoreStepBridges(s: State)
    requires |s.bodies| == 1
    ensures CommitStep(s, 0).Some? ==> !AtBridge(CommitStep(s, 0).value)
    ensures AckStep(s, 0).Some? ==> !AtBridge(AckStep(s, 0).value)
    ensures FailStep(s, 0).Some? ==> !AtBridge(FailStep(s, 0).value)
  {
  }

  lemma NoPollBridges(s: State, status: Status, observed: int)
    requires |s.bodies| == 1
    ensures PollEndedStep(s, 0, status, observed).Some? ==> !AtBridge(PollEndedStep(s, 0, status, observed).value)
  {
  }

  lemma PortalCallUsesOne(threshold: int, s: State, e: Event)
    requires Inv(s) && s.up && s.loop.aborted && e != Exit && Next(threshold, s, e).Some?
    ensures (if IsPortalCall(e) then 1 else 0) + CallsLeft(Next(threshold, s, e).value) <= CallsLeft(s)
  {
    hide CommitStep, AckStep, FailStep, PollEndedStep;
    if e.Body? {
      NoStoreStepBridges(s);
      if e.action.PollEnded? {
        NoPollBridges(s, e.action.status, e.action.observed);
      }
    }
  }

  lemma {:induction false} PortalCallsBounded(threshold: int, s: State, es: seq<Event>)
    requires Inv(s) && s.up && s.loop.aborted && !Exits(es) && Run(threshold, s, es).Some?
    ensures PortalCalls(es) <= CallsLeft(s)
    decreases |es|
  {
    if es != [] {
      assert es[0] in es;
      PortalCallUsesOne(threshold, s, es[0]);
      NextKeepsInv(threshold, s, es[0]);
      AbortSticks(threshold, s, es[0]);
      assert !Exits(es[1..]);
      PortalCallsBounded(threshold, Next(threshold, s, es[0]).value, es[1..]);
    }
  }

  lemma {:induction false} PortalCallsAttained(threshold: int, s: State, n: nat) returns (es: seq<Event>)
    requires Inv(s) && s.up && n <= CallsLeft(s)
    ensures !Exits(es) && Run(threshold, s, es).Some? && PortalCalls(es) == n
    decreases n
  {
    if n == 0 {
      es := [];
    } else {
      var e := Body(0, CallPortal);
      var s' := Next(threshold, s, e).value;
      NextKeepsInv(threshold, s, e);
      var rest := PortalCallsAttained(threshold, s', n - 1);
      es := [e] + rest;
      assert es[1..] == rest;
    }
  }

  /**
    After a shutdown was requested the process can still make exactly the portal calls that the bridge under way has
    left: none at all unless the cycle stands at its bridge call, and no run makes more.
  */
  lemma PortalCallsAfterShutdownExactly(threshold: int, s: State, n: nat)
    requires Inv(s) && s.up && s.loop.aborted
    ensures (exists es :: !Exits(es) && Run(threshold, s, es).Some? && PortalCalls(es) == n) <==> n <= CallsLeft(s)
  {
    if es :| !Exits(es) && Run(threshold, s, es).Some? && PortalCalls(es) == n {
      PortalCallsBounded(threshold, s, es);
    }
    if n <= CallsLeft(s) {
      var es := PortalCallsAttained(threshold, s, n);
    }
  }

  // ---- Completion ----

  /** A way for a stopping cycle to go on from `pc`. */
  function WayOut(pc: Pc): Action {
    match pc
    case Reconciling => Read(0, true)
    case Clearing(_, _) => Fail
    case Settling(_) => PollThrew
    case Passed => Check
    case ReadingBalance => Balance(None)
    case Bridging(_, _) => BridgeThrew
    case Saving(_, _, _) => Fail
    case Polling(_) => PollThrew
    case Releasing => Released
    case Done => Finally
  }

  function StepsLeft(pc: Pc): nat {
    match pc
    case Reconciling => 6
    case Clearing(_, _) => 5
    case Settling(_) => 5
    case Passed => 4
    case ReadingBalance => 2
    case Bridging(_, _) => 3
    case Saving(_, _, _) => 3
    case Polling(_) => 3
    case Releasing => 2
    case Done => 1
  }

  /** A requested shutdown never gets stuck: from wherever the cycle stands, some run closes the database. */
  lemma {:induction false} ShutdownCanComplete(threshold: int, s: State)
    requires Inv(s) && s.up && s.loop.aborted
    ensures exists es :: !Exits(es) && Run(threshold, s, es).Some? && Run(threshold, s, es).value.loop.dbClosed
    decreases if s.bodies == [] then 0 else StepsLeft(s.bodies[0])
  {
    if s.bodies == [] {
      var closed := Next(threshold, s, CloseDb).value;
      RunAlong(threshold, [s, closed], [CloseDb]);
      assert !Exits([CloseDb]) && Run(threshold, s, [CloseDb]).value.loop.dbClosed;
    } else {
      var e := Body(0, WayOut(s.bodies[0]));
      var s' := Next(threshold, s, e).value;
      NextKeepsInv(threshold, s, e);
      ShutdownCanComplete(threshold, s');
      var es :| !Exits(es) && Run(threshold, s', es).Some? && Run(threshold, s', es).value.loop.dbClosed;
      assert ([e] + es)[1..] == es;
      assert !Exits([e] + es);
    }
  }

  function BodyEvents(es: seq<Event>): nat {
    if es == [] then 0 else (if es[0].Body? then 1 else 0) + BodyEvents(es[1..])
  }

  /** How many steps a stopping cycle can take from `pc` at most. */
  function Budget(pc: Pc): nat {
    match pc
    case Reconciling => 6
    case Settling(_) => 5
    case Passed => 2
    case ReadingBalance => 2
    case Bridging(_, calls) =>
      8 + if calls <= BridgeRetry.MAX_NONCE_RETRY_ATTEMPTS then BridgeRetry.MAX_NONCE_RETRY_ATTEMPTS - calls else 0
    case Saving(_, _, committed) => if committed then 6 else 7
    case Polling(_) => 5
    case Clearing(_, committed) => if committed then 3 else 4
    case Releasing => 2
    case Done => 1
  }

  function BudgetOf(s: State): nat {
    if s.bodies == [] then 0 else Budget(s.bodies[0])
  }

  lemma StoreStepUsesBudget(s: State)
    requires |s.bodies| == 1
    ensures CommitStep(s, 0).Some? ==> BudgetOf(CommitStep(s, 0).value) < BudgetOf(s)
    ensures AckStep(s, 0).Some? ==> BudgetOf(AckStep(s, 0).value) < BudgetOf(s)
    ensures FailStep(s, 0).Some? ==> BudgetOf(FailStep(s, 0).value) < BudgetOf(s)
  {
  }

  lemma PollUsesBudget(s: State, status: Status, observed: int)
    requires |s.bodies| == 1
    ensures PollEndedStep(s, 0, status, observed).Some? ==>
              BudgetOf(PollEndedStep(s, 0, status, observed).value) < BudgetOf(s)
  {
  }

  lemma StoppingStepUsesBudget(threshold: int, s: State, e: Event)
    requires Inv(s) && s.up && s.loop.aborted && e != Exit && Next(threshold, s, e).Some?
    ensures (if e.Body? then 1 else 0) + BudgetOf(Next(threshold, s, e).value) <= BudgetOf(s)
  {
    hide CommitStep, AckStep, FailStep, PollEndedStep;
    if e.Body? {
      StoreStepUsesBudget(s);
      if e.action.PollEnded? {
        PollUsesBudget(s, e.action.status, e.action.observed);
      }
    }
  }

  /** Every run of a stopping process ends its cycle: it takes at most eleven more steps, whatever fails or succeeds. */
  lemma {:induction false} StoppingCycleEnds(threshold: int, s: State, es: seq<Event>)
    requires Inv(s) && s.up && s.loop.aborted && !Exits(es) && Run(threshold, s, es).Some?
    ensures BodyEvents(es) <= BudgetOf(s) <= 11
    ensures BodyEvents(es) == BudgetOf(s) ==> Run(threshold, s, es).value.bodies == []
    decreases |es|
  {
    if es != [] {
      assert es[0] in es;
      StoppingStepUsesBudget(threshold, s, es[0]);
      NextKeepsInv(threshold, s, es[0]);
      AbortSticks(threshold, s, es[0]);
      assert !Exits(es[1..]);
      StoppingCycleEnds(threshold, Next(threshold, s, es[0]).value, es[1..]);
    }
  }

  /** And it can always take the next one, or close the database if the cycle is over. */
  lemma StoppingProcessIsNeverStuck(threshold: int, s: State)
    requires Inv(s) && s.up && s.loop.aborted
    ensures s.bodies != [] ==> Next(threshold, s, Body(0, WayOut(s.bodies[0]))).Some?
    ensures s.bodies == [] ==> Next(threshold, s, CloseDb).Some?
  {
  }
}
