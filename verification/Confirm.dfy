/**
  The confirmation poller of the top-up service (services/topup/src/confirm.ts).

  The world around one call is an `Environment`: what every balance read would answer, how long every
  step takes, and where among the await points the readiness promise settles and the abort signal fires.
  Every attempt has six await points; point `p` of attempt `k` has index `6 * k + p`:
    0  before the loop body          3  the balance read has settled
    1  first settle of the promise   4  second settle of the promise
    2  message-ready action done     5  the sleep is over (or was cut short)
  `Verdict` says in closed form, from histories alone, what attempt `k` would lead to; the class below
  runs the loop on mutable fields and is proved to stop at the first attempt whose verdict is not `Continue`.
*/
module Confirm {
  import opened Outcomes

  /** How the message-readiness promise settles. */
  datatype Readiness = Ready | NotReady | CheckFailed

  /** `message` is the optional message context; its value says whether the hash is a field element. */
  datatype Options = Options(
    baseline: int,
    timeoutMs: nat,
    initialPollMs: nat,
    maxPollMs: nat,
    message: Option<bool>,
    hasAction: bool)

  datatype Environment = Environment(
    startMs: int,
    leadMs: nat,
    answers: nat -> Option<int>,
    bodies: nat -> nat,
    delays: nat -> nat,
    actions: nat -> bool,
    settlesAfter: Option<nat>,
    settlesAs: Readiness,
    abortsAt: Option<nat>)
  {
    /** What the balance read of attempt `k` answers; a failed read answers nothing. */
    function Read(k: nat): Option<int> {
      answers(k)
    }

    /** How long attempt `k` takes up to its sleep. */
    function BodyMs(k: nat): nat {
      bodies(k)
    }

    /** How much longer than requested the sleep after attempt `k` takes. */
    function LateMs(k: nat): nat {
      delays(k)
    }

    /** Whether the message-ready action succeeds if attempt `k` runs it. */
    function ActionSucceeds(k: nat): bool {
      actions(k)
    }
  }

  datatype Report = Report(
    status: Status,
    baseline: int,
    maxObserved: int,
    lastObserved: int,
    observedDelta: int,
    attempts: nat,
    pollErrors: nat,
    messageCheckAttempted: bool,
    messageReady: bool,
    messageCheckFailed: bool,
    actionAttempted: bool,
    actionSucceeded: bool,
    actionFailed: bool)

  /** The call returns a report, or throws because no balance read ever succeeded. */
  datatype Outcome = Finished(report: Report) | NeverRead(attempts: nat)

  /** What the service configuration demands of the polling parameters (services/topup/src/config.ts). */
  predicate Configured(o: Options) {
    1 <= o.initialPollMs <= o.maxPollMs <= o.timeoutMs
  }

  function Min(a: int, b: int): int {
    if a <= b then a else b
  }

  function Max(a: int, b: int): int {
    if a >= b then a else b
  }

  function Point(k: nat, p: nat): nat {
    6 * k + p
  }

  // ---------------------------------------------------------------------------------------------
  // Closed forms: what the histories say, without any polling state.
  // ---------------------------------------------------------------------------------------------

  /** The poll interval in force after `k` sleeps. */
  function Interval(o: Options, k: nat): nat {
    if k == 0 then o.initialPollMs else Min(o.maxPollMs, 3 * Interval(o, k - 1) / 2)
  }

  function Deadline(o: Options, e: Environment): int {
    e.startMs + o.timeoutMs
  }

  /** The clock at the loop guard before attempt `k`, if the loop gets there. */
  function Clock(o: Options, e: Environment, k: nat): int {
    if k == 0 then e.startMs + e.leadMs
    else
      var done := Clock(o, e, k - 1) + e.BodyMs(k - 1);
      done + Min(Interval(o, k - 1), Deadline(o, e) - done) + e.LateMs(k - 1)
  }

  /** Time left to the deadline when attempt `k` has polled. */
  function Remaining(o: Options, e: Environment, k: nat): int {
    Deadline(o, e) - Clock(o, e, k) - e.BodyMs(k)
  }

  /** The sleep requested after attempt `k`. */
  function SleepMs(o: Options, e: Environment, k: nat): int {
    Min(Interval(o, k), Remaining(o, e, k))
  }

  function Successes(e: Environment, n: nat): nat {
    if n == 0 then 0 else Successes(e, n - 1) + if e.Read(n - 1).Some? then 1 else 0
  }

  function Failures(e: Environment, n: nat): nat {
    if n == 0 then 0 else Failures(e, n - 1) + if e.Read(n - 1).Some? then 0 else 1
  }

  /** The largest of the baseline and the first `n` reads. */
  function Best(o: Options, e: Environment, n: nat): int {
    if n == 0 then o.baseline
    else if e.Read(n - 1).Some? then Max(Best(o, e, n - 1), e.Read(n - 1).value)
    else Best(o, e, n - 1)
  }

  /** The most recent of the baseline and the first `n` reads. */
  function Latest(o: Options, e: Environment, n: nat): int {
    if n == 0 then o.baseline
    else if e.Read(n - 1).Some? then e.Read(n - 1).value
    else Latest(o, e, n - 1)
  }

  predicate Settled(o: Options, e: Environment, q: nat) {
    o.message == Some(true) && e.settlesAfter.Some? && e.settlesAfter.value < q
  }

  predicate ReadyBy(o: Options, e: Environment, q: nat) {
    Settled(o, e, q) && e.settlesAs.Ready?
  }

  predicate CheckFailedBy(o: Options, e: Environment, q: nat) {
    o.message == Some(false) || (Settled(o, e, q) && e.settlesAs.CheckFailed?)
  }

  predicate AbortedBy(e: Environment, q: nat) {
    e.abortsAt.Some? && e.abortsAt.value <= q
  }

  /** The attempt among the first `n` that runs the message-ready action, if any does. */
  function ActionAttempt(o: Options, e: Environment, n: nat): Option<nat> {
    if n == 0 then None
    else if ActionAttempt(o, e, n - 1).Some? then ActionAttempt(o, e, n - 1)
    else if o.hasAction && ReadyBy(o, e, Point(n - 1, 1)) then Some(n - 1)
    else None
  }

  /** A balance increase counts without a message signal only if there is no context or its check failed. */
  predicate GateOpen(o: Options, e: Environment, k: nat) {
    o.message.None? || ReadyBy(o, e, Point(k, 4)) || CheckFailedBy(o, e, Point(k, 4))
  }

  /** Attempt `k` itself shows the bridge arrived. */
  predicate Shows(o: Options, e: Environment, k: nat) {
    e.Read(k).Some? && Best(o, e, k + 1) > o.baseline && GateOpen(o, e, k)
  }

  /** The deadline or the abort signal keeps attempt `k` from being made. */
  predicate CutBefore(o: Options, e: Environment, k: nat) {
    Clock(o, e, k) > Deadline(o, e) || AbortedBy(e, Point(k, 0))
  }

  /** The deadline or the abort signal ends the loop after an unsuccessful attempt `k`. */
  predicate CutAfter(o: Options, e: Environment, k: nat) {
    Remaining(o, e, k) <= 0 || AbortedBy(e, Point(k, 5))
  }

  datatype Verdict = Late | AbortedAtTop | Accepted | Expired | AbortedAsleep | Continue

  /** What becomes of the loop at attempt `k`; the very first abort check precedes the first deadline check. */
  function Judge(o: Options, e: Environment, k: nat): Verdict {
    if k == 0 && AbortedBy(e, 0) then AbortedAtTop
    else if Clock(o, e, k) > Deadline(o, e) then Late
    else if AbortedBy(e, Point(k, 0)) then AbortedAtTop
    else if Shows(o, e, k) then Accepted
    else if Remaining(o, e, k) <= 0 then Expired
    else if AbortedBy(e, Point(k, 5)) then AbortedAsleep
    else Continue
  }

  /** None of the first `n` attempts stops the loop. */
  ghost predicate GoesOn(o: Options, e: Environment, n: nat) {
    forall j: nat | j < n :: Judge(o, e, j) == Continue
  }

  /** Attempt `n` is the first at which the loop stops. */
  ghost predicate FirstStop(o: Options, e: Environment, n: nat) {
    GoesOn(o, e, n) && Judge(o, e, n) != Continue
  }

  function ReportAt(o: Options, e: Environment, status: Status, n: nat, q: nat): Report {
    var action := ActionAttempt(o, e, n);
    Report(
      status, o.baseline, Best(o, e, n), Latest(o, e, n), Best(o, e, n) - o.baseline, n, Failures(e, n),
      o.message.Some?, ReadyBy(o, e, q), CheckFailedBy(o, e, q),
      action.Some?,
      action.Some? && e.ActionSucceeds(action.value),
      action.Some? && !e.ActionSucceeds(action.value))
  }

  /** The deadline ended the loop after `n` attempts. */
  function TimedOut(o: Options, e: Environment, n: nat, q: nat): Outcome {
    if Successes(e, n) == 0 && !ReadyBy(o, e, q) then NeverRead(n)
    else Finished(ReportAt(o, e, Timeout, n, q))
  }

  /** How many attempts were made when the loop stops at attempt `n`. */
  function AttemptsMade(verdict: Verdict, n: nat): nat {
    if verdict == Late || verdict == AbortedAtTop then n else n + 1
  }

  /** The last await point passed when the loop stops at attempt `n`. */
  function LastPoint(verdict: Verdict, n: nat): nat {
    if verdict == Late || verdict == AbortedAtTop then Point(n, 0)
    else if verdict == AbortedAsleep then Point(n, 5)
    else Point(n, 4)
  }

  /** What a call whose loop stops at attempt `n` returns. */
  function Concluded(o: Options, e: Environment, n: nat): Outcome {
    var verdict := Judge(o, e, n);
    var made, point := AttemptsMade(verdict, n), LastPoint(verdict, n);
    match verdict
    case Accepted => Finished(ReportAt(o, e, Confirmed, made, point))
    case AbortedAtTop => Finished(ReportAt(o, e, Aborted, made, point))
    case AbortedAsleep => Finished(ReportAt(o, e, Aborted, made, point))
    case _ => TimedOut(o, e, made, point + 1)
  }

  /** Where the call ends: some attempt is the first to stop, and the outcome is the one it prescribes. */
  ghost predicate Ends(o: Options, e: Environment, out: Outcome) {
    exists n :: FirstStop(o, e, n) && out == Concluded(o, e, n)
  }

  // ---------------------------------------------------------------------------------------------
  // The loop itself.
  // ---------------------------------------------------------------------------------------------

  // The polling state that belongs to a history, one group of fields at a time.

  ghost predicate ReadsMatch(
    o: Options, e: Environment, n: nat, best: int, latest: int, failures: nat, successes: nat)
  {
    && best == Best(o, e, n)
    && latest == Latest(o, e, n)
    && failures == Failures(e, n)
    && successes == Successes(e, n)
  }

  ghost predicate SignalsMatch(o: Options, e: Environment, q: nat, ready: bool, checkFailed: bool, settled: bool) {
    && ready == ReadyBy(o, e, q)
    && checkFailed == CheckFailedBy(o, e, q)
    && settled == Settled(o, e, q)
  }

  ghost predicate ActionMatch(
    o: Options, e: Environment, n: nat, attempted: bool, succeeded: bool, failed: bool, runs: nat)
  {
    var action := ActionAttempt(o, e, n);
    && attempted == action.Some?
    && succeeded == (action.Some? && e.ActionSucceeds(action.value))
    && failed == (action.Some? && !e.ActionSucceeds(action.value))
    && runs == (if action.Some? then 1 else 0)
  }

  datatype PollStep = StepContinue | StepAborted | StepTimeout

  lemma Beginning(o: Options, e: Environment)
    ensures Clock(o, e, 0) == e.startMs + e.leadMs && Interval(o, 0) == o.initialPollMs
  {
  }

  lemma Sleeping(o: Options, e: Environment, k: nat)
    ensures Clock(o, e, k + 1) ==
            Clock(o, e, k) + e.BodyMs(k) + Min(Interval(o, k), Remaining(o, e, k)) + e.LateMs(k)
    ensures Interval(o, k + 1) == Min(o.maxPollMs, 3 * Interval(o, k) / 2)
  {
  }

  class ConfirmationState {
    const options: Options
    const env: Environment

    var now: int
    var deadlineMs: int
    var pollMs: nat
    var maxObserved: int
    var lastObserved: int
    var attempts: nat
    var pollErrors: nat
    var successfulReads: nat
    var messageReady: bool
    var messageCheckFailed: bool
    var actionAttempted: bool
    var actionSucceeded: bool
    var actionFailed: bool
    var settled: bool      // the promise callback has run
    var point: nat         // the await point control has reached
    ghost var actionRuns: nat

    /** The fields after `n` attempts, with control at await point `q`. */
    ghost predicate Shape(n: nat, q: nat)
      reads this
    {
      && deadlineMs == Deadline(options, env)
      && attempts == n
      && point == q
      && ReadsMatch(options, env, n, maxObserved, lastObserved, pollErrors, successfulReads)
      && SignalsMatch(options, env, q, messageReady, messageCheckFailed, settled)
      && ActionMatch(options, env, n, actionAttempted, actionSucceeded, actionFailed, actionRuns)
    }

    constructor (o: Options, e: Environment)
      ensures options == o && env == e
      ensures Shape(0, 0)
      ensures now == e.startMs + e.leadMs && pollMs == o.initialPollMs
    {
      options, env := o, e;
      now, deadlineMs := e.startMs + e.leadMs, e.startMs + o.timeoutMs;
      pollMs := o.initialPollMs;
      maxObserved, lastObserved := o.baseline, o.baseline;
      attempts, pollErrors, successfulReads := 0, 0, 0;
      messageReady, messageCheckFailed, settled := false, o.message == Some(false), false;
      actionAttempted, actionSucceeded, actionFailed := false, false, false;
      actionRuns := 0;
      point := 0;
    }

    /** Control reaches await point `q`: the promise callback runs if the promise has settled by then. */
    method Await(q: nat)
      requires point <= q && SignalsMatch(options, env, point, messageReady, messageCheckFailed, settled)
      modifies this`messageReady, this`messageCheckFailed, this`settled, this`point
      ensures point == q && SignalsMatch(options, env, q, messageReady, messageCheckFailed, settled)
    {
      point := q;
      if options.message == Some(true) && !settled && env.settlesAfter.Some? && env.settlesAfter.value < q {
        settled := true;
        match env.settlesAs
        case Ready => messageReady := true;
        case NotReady => messageReady := false;
        case CheckFailed => messageCheckFailed := true;
      }
    }

    /** Runs the message-ready action unless it is not due or has been attempted before. */
    method MaybeRunMessageReadyAction()
      requires attempts > 0 && point == Point(attempts - 1, 1)
      requires SignalsMatch(options, env, point, messageReady, messageCheckFailed, settled)
      requires ActionMatch(options, env, attempts - 1, actionAttempted, actionSucceeded, actionFailed, actionRuns)
      modifies this`actionAttempted, this`actionSucceeded, this`actionFailed, this`actionRuns
      ensures ActionMatch(options, env, attempts, actionAttempted, actionSucceeded, actionFailed, actionRuns)
      ensures actionRuns == old(actionRuns) + 1 <==> messageReady && options.hasAction && !old(actionAttempted)
      ensures actionRuns <= 1
    {
      if !messageReady || !options.hasAction || actionSucceeded || actionAttempted {
        return;
      }
      actionAttempted := true;
      actionRuns := actionRuns + 1;
      if env.ActionSucceeds(attempts - 1) {
        actionSucceeded := true;
      } else {
        actionFailed := true;
      }
    }

    /** One balance read; true when it succeeded and some read so far exceeds the baseline. */
    method PollBalanceOnce() returns (grew: bool)
      requires attempts > 0
      requires ReadsMatch(options, env, attempts - 1, maxObserved, lastObserved, pollErrors, successfulReads)
      modifies this`successfulReads, this`lastObserved, this`maxObserved, this`pollErrors
      ensures ReadsMatch(options, env, attempts, maxObserved, lastObserved, pollErrors, successfulReads)
      ensures grew <==> env.Read(attempts - 1).Some? && Best(options, env, attempts) > options.baseline
    {
      match env.Read(attempts - 1)
      case Some(balance) =>
        successfulReads := successfulReads + 1;
        lastObserved := balance;
        if balance > maxObserved {
          maxObserved := balance;
        }
        grew := maxObserved - options.baseline > 0;
      case None =>
        pollErrors := pollErrors + 1;
        grew := false;
    }

    /** Sleeps for the current interval, never past the deadline, and lengthens the interval by half. */
    method WaitForNextPoll() returns (step: PollStep, ghost slept: int)
      requires attempts > 0 && Shape(attempts, Point(attempts - 1, 4))
      requires pollMs > 0 && options.maxPollMs > 0
      modifies this`now, this`pollMs, this`messageReady, this`messageCheckFailed, this`settled, this`point
      ensures step == StepTimeout <==> deadlineMs - old(now) <= 0
      ensures step == StepAborted <==> step != StepTimeout && AbortedBy(env, Point(attempts - 1, 5))
      ensures step == StepContinue ==>
        && slept == Min(old(pollMs), deadlineMs - old(now))
        && 0 < slept && old(now) + slept <= deadlineMs
        && now == old(now) + slept + env.LateMs(attempts - 1)
        && pollMs == Min(options.maxPollMs, 3 * old(pollMs) / 2)
        && pollMs > 0
      ensures Shape(attempts, match step
                              case StepContinue => Point(attempts, 0)
                              case StepAborted => Point(attempts - 1, 5)
                              case StepTimeout => Point(attempts - 1, 4))
    {
      hide Best, Latest, Successes, Failures, ActionAttempt, ReadsMatch, ActionMatch, ReadyBy, CheckFailedBy, Settled;
      slept := 0;
      var remaining := deadlineMs - now;
      if remaining <= 0 {
        return StepTimeout, slept;
      }
      Await(Point(attempts - 1, 5));
      if env.abortsAt.Some? && env.abortsAt.value <= point {
        return StepAborted, slept;
      }
      var ms := if pollMs <= remaining then pollMs else remaining;
      slept := ms;
      now := now + ms + env.LateMs(attempts - 1);
      var longer := pollMs * 3 / 2;
      pollMs := if longer < options.maxPollMs then longer else options.maxPollMs;
      Await(Point(attempts, 0));
      step := StepContinue;
    }

    /** The body of the loop up to the balance read: count the attempt, settle, run the action if it is due. */
    method SettleAndAct()
      requires Shape(attempts, Point(attempts, 0))
      modifies this`attempts, this`point, this`settled, this`messageReady, this`messageCheckFailed
      modifies this`actionAttempted, this`actionSucceeded, this`actionFailed, this`actionRuns
      ensures attempts == old(attempts) + 1 && point == Point(old(attempts), 1)
      ensures SignalsMatch(options, env, point, messageReady, messageCheckFailed, settled)
      ensures ActionMatch(options, env, attempts, actionAttempted, actionSucceeded, actionFailed, actionRuns)
    {
      hide Best, Latest, Successes, Failures, ActionAttempt, ReadsMatch, ActionMatch, ReadyBy, CheckFailedBy, Settled;
      attempts := attempts + 1;
      Await(Point(attempts - 1, 1));
      MaybeRunMessageReadyAction();
    }

    /** The body of the loop up to the sleep: settle, action, read, settle, gate. */
    method Attempt() returns (accepted: bool)
      requires Shape(attempts, Point(attempts, 0))
      modifies this`attempts, this`now, this`point, this`settled, this`messageReady, this`messageCheckFailed
      modifies this`actionAttempted, this`actionSucceeded, this`actionFailed, this`actionRuns
      modifies this`successfulReads, this`lastObserved, this`maxObserved, this`pollErrors
      ensures Shape(old(attempts) + 1, Point(old(attempts), 4))
      ensures accepted <==> Shows(options, env, old(attempts))
      ensures now == old(now) + env.BodyMs(old(attempts))
    {
      hide Best, Latest, Successes, Failures, ActionAttempt, ReadsMatch, ActionMatch, ReadyBy, CheckFailedBy, Settled;
      SettleAndAct();
      var grew := PollBalanceOnce();
      now := now + env.BodyMs(attempts - 1);
      Await(Point(attempts - 1, 4));
      accepted := grew && (options.message.None? || messageReady || messageCheckFailed);
    }

    /** Polls until the bridge shows, the signal aborts, or the deadline passes; `n` is where it stops. */
    method PollUntilConfirmed() returns (status: Option<Status>, ghost n: nat)
      requires options.initialPollMs > 0 && options.maxPollMs > 0
      requires Shape(0, 0) && !AbortedBy(env, 0)
      requires now == env.startMs + env.leadMs && pollMs == options.initialPollMs
      modifies this`attempts, this`now, this`point, this`settled, this`messageReady, this`messageCheckFailed
      modifies this`actionAttempted, this`actionSucceeded, this`actionFailed, this`actionRuns
      modifies this`successfulReads, this`lastObserved, this`maxObserved, this`pollErrors, this`pollMs
      ensures FirstStop(options, env, n)
      ensures status == match Judge(options, env, n)
                        case Accepted => Some(Confirmed)
                        case AbortedAtTop => Some(Aborted)
                        case AbortedAsleep => Some(Aborted)
                        case _ => None
      ensures var verdict := Judge(options, env, n);
              Shape(AttemptsMade(verdict, n), LastPoint(verdict, n))
    {
      hide Best, Latest, Successes, Failures, ActionAttempt, ReadsMatch, SignalsMatch, ActionMatch, Shows;
      hide Clock, Interval, Settled, ReadyBy, CheckFailedBy, GateOpen;
      Beginning(options, env);
      n := 0;
      while now <= deadlineMs
        invariant n == attempts && Shape(n, Point(n, 0))
        invariant now == Clock(options, env, n) && pollMs == Interval(options, n) && pollMs > 0
        invariant GoesOn(options, env, n)
        decreases deadlineMs - now
      {
        if env.abortsAt.Some? && env.abortsAt.value <= point {
          return Some(Aborted), n;
        }
        Sleeping(options, env, n);
        var accepted := Attempt();
        if accepted {
          return Some(Confirmed), n;
        }
        var step, _ := WaitForNextPoll();
        match step
        case StepAborted =>
          return Some(Aborted), n;
        case StepTimeout =>
          return None, n;
        case StepContinue =>
          n := n + 1;
      }
      return None, n;
    }

    function Build(status: Status): Report
      reads this
    {
      Report(
        status, options.baseline, maxObserved, lastObserved, maxObserved - options.baseline, attempts, pollErrors,
        options.message.Some?, messageReady, messageCheckFailed, actionAttempted, actionSucceeded, actionFailed)
    }
  }

  lemma ReportMatches(state: ConfirmationState, status: Status, n: nat, q: nat)
    requires state.Shape(n, q)
    ensures state.Build(status) == ReportAt(state.options, state.env, status, n, q)
  {
    hide Best, Latest, Failures, ReadyBy, CheckFailedBy, ActionAttempt;
  }

  /** The whole call: it returns exactly what the first stopping attempt prescribes. */
  method WaitForFeeJuiceBridgeConfirmation(o: Options, e: Environment) returns (out: Outcome)
    requires o.initialPollMs > 0 && o.maxPollMs > 0
    ensures Ends(o, e, out)
  {
    hide Best, Latest, Successes, Failures, ActionAttempt, Clock, Interval, Shows, ReadyBy, CheckFailedBy, Settled;
    hide FirstStop, ReportAt, ActionMatch;
    var state := new ConfirmationState(o, e);
    if e.abortsAt.Some? && e.abortsAt.value <= 0 {
      AbortedAtOnce(o, e);
      ReportMatches(state, Aborted, 0, 0);
      return Finished(state.Build(Aborted));
    }
    ghost var n;
    var status;
    status, n := state.PollUntilConfirmed();
    ghost var made := AttemptsMade(Judge(o, e, n), n);
    if status.Some? {
      ReportMatches(state, status.value, made, state.point);
      return Finished(state.Build(status.value));
    }
    state.Await(state.point + 1);
    if state.successfulReads == 0 {
      if state.messageReady {
        ReportMatches(state, Timeout, made, state.point);
        return Finished(state.Build(Timeout));
      }
      return NeverRead(state.attempts);
    }
    ReportMatches(state, Timeout, made, state.point);
    return Finished(state.Build(Timeout));
  }

  lemma AbortedAtOnce(o: Options, e: Environment)
    requires AbortedBy(e, 0)
    ensures FirstStop(o, e, 0)
  {
  }
}
