/**
  What a confirmation call returns, said in the fields of its options and its environment alone: a second account of the
  poller (services/topup/src/confirm.ts) that shares no definition with the first.
*/
module ConfirmOutcome {
  import opened Confirm
  import opened ConfirmProperties
  import opened Outcomes

  // ---- The raw account ----

  /** When the loop guard after attempt `k` is reached, if that of `k` was at `at` and the interval there was `ms`. */
  function NextAt(o: Options, e: Environment, k: nat, at: int, ms: int): int {
    var polled := at + e.bodies(k);
    var left := e.startMs + o.timeoutMs - polled;
    polled + (if ms < left then ms else left) + e.delays(k)
  }

  /** When the loop guard of each attempt is reached, and the poll interval in force there. */
  predicate Passes(o: Options, e: Environment, at: seq<int>, ms: seq<int>) {
    && |at| == |ms| > 0
    && at[0] == e.startMs + e.leadMs && ms[0] == o.initialPollMs
    && (forall k | 0 < k < |at| :: ms[k] == if ms[k - 1] * 3 / 2 < o.maxPollMs then ms[k - 1] * 3 / 2 else o.maxPollMs)
    && (forall k | 0 < k < |at| :: at[k] == NextAt(o, e, k - 1, at[k - 1], ms[k - 1]))
  }

  predicate Fired(e: Environment, q: int) {
    e.abortsAt.Some? && e.abortsAt.value <= q
  }

  /** The readiness check has been answered before await point `q`. */
  predicate Answered(o: Options, e: Environment, q: int, answer: Readiness) {
    o.message == Some(true) && e.settlesAfter.Some? && e.settlesAfter.value < q && e.settlesAs == answer
  }

  /** Attempt `k` is made: in time, and no signal before it. */
  predicate Made(o: Options, e: Environment, at: seq<int>, k: nat)
    requires k < |at|
  {
    at[k] <= e.startMs + o.timeoutMs && !Fired(e, 6 * k)
  }

  predicate Above(o: Options, e: Environment, k: nat) {
    e.answers(k).Some? && e.answers(k).value > o.baseline
  }

  /**
    Attempt `k` read a balance, some read so far was above the baseline, and there is no message context, the message is
    ready, its hash is no field element, or the check itself failed.
  */
  predicate Arrived(o: Options, e: Environment, k: nat) {
    && e.answers(k).Some?
    && (exists i: nat | i <= k :: Above(o, e, i))
    && (|| o.message == None
        || o.message == Some(false)
        || Answered(o, e, 6 * k + 4, Ready)
        || Answered(o, e, 6 * k + 4, CheckFailed))
  }

  /** After attempt `k` there is time left to sleep. */
  predicate HasTime(o: Options, e: Environment, at: seq<int>, k: nat)
    requires k < |at|
  {
    at[k] + e.bodies(k) < e.startMs + o.timeoutMs
  }

  /** The loop goes on after attempt `k`. */
  predicate Goes(o: Options, e: Environment, at: seq<int>, k: nat)
    requires k < |at|
  {
    Made(o, e, at, k) && !Arrived(o, e, k) && HasTime(o, e, at, k) && !Fired(e, 6 * k + 5)
  }

  predicate GoesUpTo(o: Options, e: Environment, at: seq<int>, n: nat)
    requires n <= |at|
  {
    forall j: nat | j < n :: Goes(o, e, at, j)
  }

  predicate ConfirmedAfter(o: Options, e: Environment, at: seq<int>, made: nat)
    requires made < |at|
  {
    made > 0 && GoesUpTo(o, e, at, made - 1) && Made(o, e, at, made - 1) && Arrived(o, e, made - 1)
  }

  /** The signal is seen before another attempt, or in the sleep after the last one. */
  predicate AbortedAfter(o: Options, e: Environment, at: seq<int>, made: nat)
    requires made < |at|
  {
    || (GoesUpTo(o, e, at, made) && Fired(e, 6 * made) && (made == 0 || at[made] <= e.startMs + o.timeoutMs))
    || (made > 0 && GoesUpTo(o, e, at, made - 1) && Made(o, e, at, made - 1) && !Arrived(o, e, made - 1)
        && HasTime(o, e, at, made - 1) && Fired(e, 6 * made - 1))
  }

  /** The deadline passes before another attempt, or during the last one. */
  predicate OverdueAfter(o: Options, e: Environment, at: seq<int>, made: nat)
    requires made < |at|
  {
    || (GoesUpTo(o, e, at, made) && at[made] > e.startMs + o.timeoutMs && !(made == 0 && Fired(e, 0)))
    || (made > 0 && GoesUpTo(o, e, at, made - 1) && Made(o, e, at, made - 1) && !Arrived(o, e, made - 1)
        && !HasTime(o, e, at, made - 1))
  }

  /** The await point at which the readiness flags of the report are read. */
  function FlagsAt(o: Options, e: Environment, at: seq<int>, status: Status, made: nat): int
    requires made < |at|
  {
    match status
    case Confirmed => 6 * made - 2
    case Aborted => if made > 0 && Fired(e, 6 * made - 1) then 6 * made - 1 else 6 * made
    case Timeout => if made > 0 && !HasTime(o, e, at, made - 1) then 6 * made - 1 else 6 * made + 1
  }

  // ---- The two accounts agree ----

  lemma {:induction false} ClockPasses(o: Options, e: Environment, at: seq<int>, ms: seq<int>, k: nat)
    requires Passes(o, e, at, ms) && k < |at|
    ensures Clock(o, e, k) == at[k] && Interval(o, k) == ms[k]
  {
    if k > 0 {
      ClockPasses(o, e, at, ms, k - 1);
    }
  }

  lemma BestIsAbove(o: Options, e: Environment, k: nat)
    ensures Best(o, e, k + 1) > o.baseline <==> exists i: nat | i <= k :: Above(o, e, i)
  {
    Accounting(o, e, k + 1);
    if Best(o, e, k + 1) > o.baseline {
      var j: nat :| j < k + 1 && e.Read(j) == Some(Best(o, e, k + 1));
      assert Above(o, e, j);
    }
    if i: nat :| i <= k && Above(o, e, i) {
      assert e.Read(i).Some?;
    }
  }

  lemma ShowsIsArrived(o: Options, e: Environment, k: nat)
    ensures Shows(o, e, k) <==> Arrived(o, e, k)
  {
    BestIsAbove(o, e, k);
  }

  lemma JudgeIs(o: Options, e: Environment, at: seq<int>, ms: seq<int>, k: nat)
    requires Passes(o, e, at, ms) && k < |at|
    ensures Judge(o, e, k) ==
            if k == 0 && Fired(e, 0) then AbortedAtTop
            else if at[k] > e.startMs + o.timeoutMs then Late
            else if Fired(e, 6 * k) then AbortedAtTop
            else if Arrived(o, e, k) then Accepted
            else if !HasTime(o, e, at, k) then Expired
            else if Fired(e, 6 * k + 5) then AbortedAsleep
            else Continue
    ensures Judge(o, e, k) == Continue <==> Goes(o, e, at, k)
  {
    ClockPasses(o, e, at, ms, k);
    ShowsIsArrived(o, e, k);
    hide Arrived, Shows;
  }

  /** The attempts of an outcome. */
  function AttemptsOf(out: Outcome): nat {
    match out
    case Finished(report) => report.attempts
    case NeverRead(attempts) => attempts
  }

  lemma StopsAt(o: Options, e: Environment, out: Outcome, at: seq<int>, ms: seq<int>) returns (n: nat)
    requires Ends(o, e, out) && Passes(o, e, at, ms) && AttemptsOf(out) < |at|
    ensures n < |at| && FirstStop(o, e, n) && out == Concluded(o, e, n)
    ensures AttemptsOf(out) == AttemptsMade(Judge(o, e, n), n)
    ensures GoesUpTo(o, e, at, n) && !Goes(o, e, at, n)
  {
    n :| FirstStop(o, e, n) && out == Concluded(o, e, n);
    assert AttemptsOf(out) == AttemptsMade(Judge(o, e, n), n) by {
      hide Judge, Passes, Goes;
    }
    hide Judge, Passes, Goes, Concluded;
    forall j: nat | j <= n ensures j < n ==> Goes(o, e, at, j) {
      JudgeIs(o, e, at, ms, j);
    }
    JudgeIs(o, e, at, ms, n);
  }

  /** Nothing after the first stop counts as going on. */
  lemma OnlyStop(o: Options, e: Environment, at: seq<int>, n: nat, m: nat)
    requires n < |at| && m <= |at| && !Goes(o, e, at, n) && GoesUpTo(o, e, at, m)
    ensures m <= n
  {
  }

  /**
    Exactly how many attempts a call makes and how it ends: confirmed at the first attempt at which the bridge has
    arrived, aborted by a signal, or ended by the deadline.
  */
  lemma EndsExactlyAs(o: Options, e: Environment, out: Outcome, at: seq<int>, ms: seq<int>, made: nat)
    requires Ends(o, e, out) && Passes(o, e, at, ms) && AttemptsOf(out) < |at| && made < |at|
    ensures out.Finished? && out.report.status == Confirmed && out.report.attempts == made <==>
              ConfirmedAfter(o, e, at, made)
    ensures out.Finished? && out.report.status == Aborted && out.report.attempts == made <==>
              AbortedAfter(o, e, at, made)
    ensures (out.NeverRead? || out.report.status == Timeout) && AttemptsOf(out) == made <==>
              OverdueAfter(o, e, at, made)
  {
    var n := StopsAt(o, e, out, at, ms);
    JudgeIs(o, e, at, ms, n);
    hide Passes, Judge, FirstStop, Arrived, Fired, ReportAt;
    assert made < n ==> Goes(o, e, at, made);
    assert 0 < made <= n ==> Goes(o, e, at, made - 1);
    if GoesUpTo(o, e, at, made) {
      OnlyStop(o, e, at, n, made);
    }
    if made > 0 && GoesUpTo(o, e, at, made - 1) {
      OnlyStop(o, e, at, n, made - 1);
    }
  }

  /** A call whose message is never answered for, or is answered not to be ready, is not confirmed. */
  lemma UnreadyNeverConfirms(o: Options, e: Environment, out: Outcome)
    requires Ends(o, e, out)
    requires o.message == Some(true) && (e.settlesAfter == None || e.settlesAs == NotReady)
    ensures !(out.Finished? && out.report.status == Confirmed)
  {
    var n :| FirstStop(o, e, n) && out == Concluded(o, e, n);
    NotReadyNeverConfirms(o, e, n);
  }

  /** All attempts but two take at least the initial interval each, and that is less than the timeout. */
  lemma AttemptsFit(o: Options, e: Environment, out: Outcome)
    requires Ends(o, e, out) && 1 <= o.initialPollMs <= o.maxPollMs <= o.timeoutMs
    ensures (AttemptsOf(out) - 2) * o.initialPollMs < o.timeoutMs
  {
    var n :| FirstStop(o, e, n) && out == Concluded(o, e, n);
    AttemptsBounded(o, e, n);
    hide Judge, ReportAt, Successes, ReadyBy;
  }

  lemma OneMoreAttempt(o: Options, e: Environment, at: seq<int>, ms: seq<int>, a: int, m: int)
    requires Passes(o, e, at, ms)
    requires a == NextAt(o, e, |at| - 1, at[|at| - 1], ms[|at| - 1])
    requires m == if ms[|at| - 1] * 3 / 2 < o.maxPollMs then ms[|at| - 1] * 3 / 2 else o.maxPollMs
    ensures Passes(o, e, at + [a], ms + [m])
  {
    var n := |at|;
    var at', ms' := at + [a], ms + [m];
    forall k | 0 < k <= n
      ensures ms'[k] == if ms'[k - 1] * 3 / 2 < o.maxPollMs then ms'[k - 1] * 3 / 2 else o.maxPollMs
      ensures at'[k] == NextAt(o, e, k - 1, at'[k - 1], ms'[k - 1])
    {
      assert k < n ==> at'[k] == at[k] && ms'[k] == ms[k];
      assert at'[k - 1] == at[k - 1] && ms'[k - 1] == ms[k - 1];
    }
  }

  /** Every call has its timeline, of any length. */
  lemma {:induction false} Timeline(o: Options, e: Environment, n: nat) returns (at: seq<int>, ms: seq<int>)
    ensures |at| == n + 1 && Passes(o, e, at, ms)
  {
    if n == 0 {
      at, ms := [e.startMs + e.leadMs], [o.initialPollMs];
    } else {
      at, ms := Timeline(o, e, n - 1);
      hide Passes;
      assert |ms| == |at| by {
        PassesHasBoth(o, e, at, ms);
      }
      var a := NextAt(o, e, n - 1, at[n - 1], ms[n - 1]);
      var m := if ms[n - 1] * 3 / 2 < o.maxPollMs then ms[n - 1] * 3 / 2 else o.maxPollMs;
      OneMoreAttempt(o, e, at, ms, a, m);
      at, ms := at + [a], ms + [m];
    }
  }

  lemma PassesHasBoth(o: Options, e: Environment, at: seq<int>, ms: seq<int>)
    requires Passes(o, e, at, ms)
    ensures |at| == |ms|
  {
  }

  // ---- The report ----

  /** Attempt `k` is the first before which the message was known to be ready. */
  predicate FirstReady(o: Options, e: Environment, k: nat) {
    Answered(o, e, 6 * k + 1, Ready) && (k > 0 ==> !Answered(o, e, 6 * k - 5, Ready))
  }

  lemma {:induction false} LatestIs(o: Options, e: Environment, n: nat)
    ensures (forall j: nat | j < n :: e.answers(j).None?) ==> Latest(o, e, n) == o.baseline
    ensures forall k: nat | k < n && e.answers(k).Some? && (forall j: nat | k < j < n :: e.answers(j).None?) ::
              Latest(o, e, n) == e.answers(k).value
  {
    if n > 0 {
      LatestIs(o, e, n - 1);
      assert Latest(o, e, n) == if e.answers(n - 1).Some? then e.answers(n - 1).value else Latest(o, e, n - 1);
    }
  }

  function FailedReads(e: Environment, n: nat): set<nat> {
    set j: nat | j < n && e.answers(j).None?
  }

  lemma {:induction false} FailuresAre(e: Environment, n: nat)
    ensures Failures(e, n) == |FailedReads(e, n)|
  {
    if n > 0 {
      FailuresAre(e, n - 1);
      assert FailedReads(e, n) == FailedReads(e, n - 1) + if e.answers(n - 1).None? then {n - 1} else {};
    }
  }

  lemma ActionIs(o: Options, e: Environment, n: nat, k: nat)
    ensures ActionAttempt(o, e, n).Some? <==> o.hasAction && exists j: nat :: j < n && Answered(o, e, 6 * j + 1, Ready)
    ensures k < n && o.hasAction && FirstReady(o, e, k) ==> ActionAttempt(o, e, n) == Some(k)
  {
    ActionRunsOnFirstReadyAttempt(o, e, n);
    assert forall j: nat :: ReadyBy(o, e, Point(j, 1)) <==> Answered(o, e, 6 * j + 1, Ready);
  }

  lemma FlagsAreAt(o: Options, e: Environment, out: Outcome, at: seq<int>, ms: seq<int>)
    requires Ends(o, e, out) && Passes(o, e, at, ms) && AttemptsOf(out) < |at| && out.Finished?
    ensures var r, q := out.report, FlagsAt(o, e, at, out.report.status, out.report.attempts);
            && r.messageReady == Answered(o, e, q, Ready)
            && r.messageCheckFailed == (o.message == Some(false) || Answered(o, e, q, CheckFailed))
  {
    var n := StopsAt(o, e, out, at, ms);
    JudgeIs(o, e, at, ms, n);
    var r := out.report;
    if r.attempts > 0 && n == r.attempts {
      assert Goes(o, e, at, n - 1);
    }
    hide Passes, Judge, FirstStop, Arrived, Best, Latest, Failures, ActionAttempt, Successes;
  }

  /** Exactly what the report says of the balance reads. `k` is any attempt. */
  lemma ReadsReported(o: Options, e: Environment, out: Outcome, k: nat)
    requires Ends(o, e, out) && out.Finished?
    ensures var r := out.report;
            && r.baseline == o.baseline && r.observedDelta == r.maxObserved - o.baseline
            && r.maxObserved >= o.baseline
            && (k < r.attempts && e.answers(k).Some? ==> e.answers(k).value <= r.maxObserved)
            && (r.maxObserved == o.baseline || exists j: nat :: j < r.attempts && e.answers(j) == Some(r.maxObserved))
            && ((forall j: nat | j < r.attempts :: e.answers(j).None?) ==> r.lastObserved == o.baseline)
            && (k < r.attempts && e.answers(k).Some? && (forall j: nat | k < j < r.attempts :: e.answers(j).None?) ==>
                  r.lastObserved == e.answers(k).value)
            && r.pollErrors == |FailedReads(e, r.attempts)|
  {
    var r := out.report;
    Accounting(o, e, r.attempts);
    LatestIs(o, e, r.attempts);
    FailuresAre(e, r.attempts);
    assert forall j: nat :: e.Read(j) == e.answers(j);
    hide Judge, FirstStop, FailedReads, ActionAttempt, Best, Latest, Failures, ReadyBy, CheckFailedBy;
  }

  /** Exactly what it says of the message and of the message-ready action. */
  lemma ActionReported(o: Options, e: Environment, out: Outcome, k: nat)
    requires Ends(o, e, out) && out.Finished?
    ensures var r := out.report;
            && r.messageCheckAttempted == o.message.Some?
            && (r.actionAttempted <==>
                  o.hasAction && exists j: nat :: j < r.attempts && Answered(o, e, 6 * j + 1, Ready))
            && (k < r.attempts && o.hasAction && FirstReady(o, e, k) ==>
                  r.actionSucceeded == e.actions(k) && r.actionFailed == !e.actions(k))
            && (!r.actionAttempted ==> !r.actionSucceeded && !r.actionFailed)
  {
    ActionIs(o, e, out.report.attempts, k);
    hide Judge, FirstStop, FirstReady, Answered, Best, Latest, Failures, ReadyBy, CheckFailedBy, ActionAttempt;
  }

  /** The call throws exactly if the deadline ended it, no read succeeded, and the message was not ready at the end. */
  lemma ThrowsExactlyWhen(o: Options, e: Environment, out: Outcome, at: seq<int>, ms: seq<int>, made: nat)
    requires Ends(o, e, out) && Passes(o, e, at, ms) && AttemptsOf(out) < |at| && made < |at|
    ensures out == NeverRead(made) <==>
              && OverdueAfter(o, e, at, made)
              && (forall j: nat | j < made :: e.answers(j).None?)
              && !Answered(o, e, FlagsAt(o, e, at, Timeout, made), Ready)
  {
    var n := StopsAt(o, e, out, at, ms);
    EndsExactlyAs(o, e, out, at, ms, made);
    JudgeIs(o, e, at, ms, n);
    Accounting(o, e, AttemptsOf(out));
    assert forall j: nat :: e.Read(j) == e.answers(j);
    if 0 < made == n {
      assert Goes(o, e, at, n - 1);
    }
    hide Passes, Judge, FirstStop, Arrived, OverdueAfter, ReportAt, Fired;
  }
}
