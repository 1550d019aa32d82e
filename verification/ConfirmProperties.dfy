/** What the confirmation poller guarantees, proved about the closed forms its loop refines. */
module ConfirmProperties {
  import opened Division
  import opened Outcomes
  import opened Confirm

  // ---- Where the loop stops ----

  lemma FirstStopUnique(o: Options, e: Environment, m: nat, n: nat)
    requires FirstStop(o, e, m) && FirstStop(o, e, n)
    ensures m == n
  {
    assert m < n ==> Judge(o, e, m) == Continue;
    assert n < m ==> Judge(o, e, n) == Continue;
  }

  /**
    A call confirms after `k + 1` attempts exactly if attempt `k` is the first that shows the bridge (its own read
    succeeded, the running maximum exceeds the baseline, the gate is open) and neither the deadline nor the abort
    signal came before it.
  */
  lemma ConfirmedExactlyAtFirstShow(o: Options, e: Environment, n: nat, k: nat)
    requires FirstStop(o, e, n)
    ensures Concluded(o, e, n).Finished? && Concluded(o, e, n).report.status == Confirmed
            && Concluded(o, e, n).report.attempts == k + 1
       <==> && Shows(o, e, k) && !CutBefore(o, e, k)
            && forall j: nat | j < k :: !Shows(o, e, j) && !CutBefore(o, e, j) && !CutAfter(o, e, j)
  {
    if Shows(o, e, k) && !CutBefore(o, e, k)
       && forall j: nat | j < k :: !Shows(o, e, j) && !CutBefore(o, e, j) && !CutAfter(o, e, j) {
      forall j: nat | j < k ensures Judge(o, e, j) == Continue {
        assert !CutBefore(o, e, j) && !CutAfter(o, e, j);
      }
      assert FirstStop(o, e, k);
      FirstStopUnique(o, e, k, n);
    } else if Judge(o, e, n) == Accepted && n == k {
      forall j: nat | j < k ensures !Shows(o, e, j) && !CutBefore(o, e, j) && !CutAfter(o, e, j) {
        assert Judge(o, e, j) == Continue;
      }
    }
  }

  /**
    A readiness check that answers "not ready" closes the gate for good: only a failed check falls back to the balance.
  */
  lemma NotReadyNeverConfirms(o: Options, e: Environment, n: nat)
    requires FirstStop(o, e, n)
    requires o.message == Some(true) && (e.settlesAfter.None? || e.settlesAs.NotReady?)
    ensures !(Concluded(o, e, n).Finished? && Concluded(o, e, n).report.status == Confirmed)
  {
    assert !GateOpen(o, e, n);
  }

  // ---- Time ----

  lemma {:induction false} BackoffStaysInRange(o: Options, k: nat)
    requires Configured(o)
    ensures o.initialPollMs <= Interval(o, k) <= Interval(o, k + 1) <= o.maxPollMs
  {
    if k > 0 {
      BackoffStaysInRange(o, k - 1);
    }
  }

  /** From 2 ms on, a step grows the interval by at least a third or reaches the cap; from 1 ms it never grows. */
  lemma BackoffGrowth(o: Options, k: nat)
    requires Configured(o)
    ensures Interval(o, k) >= 2 ==> Interval(o, k + 1) == o.maxPollMs || 3 * Interval(o, k + 1) >= 4 * Interval(o, k)
    ensures Interval(o, k) == 1 ==> Interval(o, k + 1) == 1
  {
    BackoffStaysInRange(o, k);
    assert Interval(o, k + 1) == Min(o.maxPollMs, 3 * Interval(o, k) / 2);
  }

  lemma {:induction false} BackoffFloor(o: Options, k: nat)
    requires Configured(o)
    ensures o.initialPollMs >= 2 ==> Interval(o, k) >= Min(o.maxPollMs, o.initialPollMs + k)
    ensures o.initialPollMs == 1 ==> Interval(o, k) == 1
  {
    if k > 0 {
      BackoffFloor(o, k - 1);
      BackoffStaysInRange(o, k - 1);
    }
  }

  /** The interval ever reaches its cap exactly if it starts there or starts above 1 ms. */
  lemma BackoffReachesCap(o: Options)
    requires Configured(o)
    ensures (exists k: nat :: Interval(o, k) == o.maxPollMs) <==> o.initialPollMs >= 2 || o.maxPollMs == 1
  {
    if o.initialPollMs >= 2 {
      BackoffFloor(o, o.maxPollMs);
      BackoffStaysInRange(o, o.maxPollMs);
      assert Interval(o, o.maxPollMs) == o.maxPollMs;
    } else if o.maxPollMs == 1 {
      assert Interval(o, 0) == o.maxPollMs;
    } else {
      forall k: nat ensures Interval(o, k) != o.maxPollMs {
        BackoffFloor(o, k);
      }
    }
  }

  /** Every sleep is positive and ends by the deadline. */
  lemma SleepsEndByDeadline(o: Options, e: Environment, k: nat)
    requires Configured(o) && Judge(o, e, k) == Continue
    ensures 0 < SleepMs(o, e, k)
    ensures Clock(o, e, k) + e.BodyMs(k) + SleepMs(o, e, k) <= Deadline(o, e)
    ensures Clock(o, e, k + 1) == Clock(o, e, k) + e.BodyMs(k) + SleepMs(o, e, k) + e.LateMs(k)
  {
    BackoffStaysInRange(o, k);
  }

  /** Until the deadline, `k` sleeps take at least `k` times the initial interval. */
  lemma {:induction false} ClockAdvances(o: Options, e: Environment, k: nat)
    requires Configured(o) && GoesOn(o, e, k)
    ensures Clock(o, e, k) >= e.startMs + k * o.initialPollMs || Clock(o, e, k) >= Deadline(o, e)
  {
    if k > 0 {
      assert Judge(o, e, k - 1) == Continue;
      assert GoesOn(o, e, k - 1);
      ClockAdvances(o, e, k - 1);
      SleepsEndByDeadline(o, e, k - 1);
      BackoffStaysInRange(o, k - 1);
      assert k * o.initialPollMs == (k - 1) * o.initialPollMs + o.initialPollMs;
    }
  }

  /** A call makes at most one attempt more than the timeout holds initial intervals. */
  lemma AttemptsBounded(o: Options, e: Environment, n: nat)
    requires Configured(o) && FirstStop(o, e, n)
    ensures AttemptsMade(Judge(o, e, n), n) <= CeilDiv(o.timeoutMs, o.initialPollMs) + 1
    ensures (AttemptsMade(Judge(o, e, n), n) - 2) * o.initialPollMs < o.timeoutMs
  {
    var made := AttemptsMade(Judge(o, e, n), n);
    if made >= 2 {
      var k := made - 2;
      assert Judge(o, e, k) == Continue;
      assert GoesOn(o, e, k);
      ClockAdvances(o, e, k);
      SleepsEndByDeadline(o, e, k);
      CeilDivIsLeast(o.timeoutMs, o.initialPollMs, k);
    }
  }

  /** An environment in which nothing takes time and no read succeeds. */
  function Idle(start: int): Environment {
    Environment(start, 0, _ => None, _ => 0, _ => 0, _ => false, None, NotReady, None)
  }

  lemma Multiples(p: nat, k: nat, steps: nat)
    requires k <= steps
    ensures k > 0 ==> (k - 1) * p + p == k * p
    ensures k * p <= steps * p && (k < steps ==> k * p + p <= steps * p)
  {
    if k < steps {
      assert (k + 1) * p <= steps * p;
    }
  }

  lemma {:induction false} ConstantInterval(o: Options, k: nat)
    requires Configured(o) && o.maxPollMs == o.initialPollMs
    ensures Interval(o, k) == o.initialPollMs
  {
    BackoffStaysInRange(o, k);
  }

  lemma {:induction false} IdleClock(o: Options, start: int, steps: nat, k: nat)
    requires Configured(o) && o.maxPollMs == o.initialPollMs && o.timeoutMs == steps * o.initialPollMs && k <= steps
    ensures Clock(o, Idle(start), k) == start + k * o.initialPollMs
  {
    if k > 0 {
      IdleClock(o, start, steps, k - 1);
      Multiples(o.initialPollMs, k, steps);
      Multiples(o.initialPollMs, k - 1, steps);
      ConstantInterval(o, k - 1);
    }
  }

  /** The attempt bound is reached: a constant interval dividing the timeout polls once more at the deadline itself. */
  lemma AttemptsBoundTight(start: int, initial: nat, steps: nat)
    requires initial > 0 && steps > 0
    ensures steps * initial >= initial
    ensures var o := Options(0, steps * initial, initial, initial, None, false);
            && FirstStop(o, Idle(start), steps)
            && AttemptsMade(Judge(o, Idle(start), steps), steps) == CeilDiv(o.timeoutMs, initial) + 1
  {
    assert steps * initial >= initial;
    var o, e := Options(0, steps * initial, initial, initial, None, false), Idle(start);
    forall j: nat | j < steps ensures Judge(o, e, j) == Continue {
      IdleClock(o, start, steps, j);
      Multiples(initial, j, steps);
    }
    IdleClock(o, start, steps, steps);
    assert e.Read(steps).None? && e.BodyMs(steps) == 0;
    assert Judge(o, e, steps) == Expired;
    CeilDivIsLeast(steps * initial, initial, steps);
    CeilDivIsLeast(steps * initial, initial, steps - 1);
    assert (steps - 1) * initial == steps * initial - initial;
  }

  // ---- What the report says ----

  lemma {:induction false} Accounting(o: Options, e: Environment, n: nat)
    ensures Successes(e, n) + Failures(e, n) == n
    ensures o.baseline <= Best(o, e, n) && Latest(o, e, n) <= Best(o, e, n)
    ensures forall j: nat | j < n && e.Read(j).Some? :: e.Read(j).value <= Best(o, e, n)
    ensures Best(o, e, n) == o.baseline || exists j: nat :: j < n && e.Read(j) == Some(Best(o, e, n))
    ensures Successes(e, n) == 0 <==> forall j: nat | j < n :: e.Read(j).None?
  {
    if n > 0 {
      Accounting(o, e, n - 1);
      if e.Read(n - 1).Some? && e.Read(n - 1).value == Best(o, e, n) {
      } else if Best(o, e, n) != o.baseline {
        var j: nat :| j < n - 1 && e.Read(j) == Some(Best(o, e, n - 1));
        assert j < n && e.Read(j) == Some(Best(o, e, n));
      }
    }
  }

  lemma {:induction false} ActionRunsOnFirstReadyAttempt(o: Options, e: Environment, n: nat)
    ensures ActionAttempt(o, e, n).Some? <==> o.hasAction && exists j: nat :: j < n && ReadyBy(o, e, Point(j, 1))
    ensures ActionAttempt(o, e, n).Some? ==>
              var k := ActionAttempt(o, e, n).value;
              k < n && ReadyBy(o, e, Point(k, 1)) && forall j: nat | j < k :: !ReadyBy(o, e, Point(j, 1))
  {
    if n > 0 {
      ActionRunsOnFirstReadyAttempt(o, e, n - 1);
      if ActionAttempt(o, e, n).Some? {
        var k := ActionAttempt(o, e, n).value;
        assert k < n && ReadyBy(o, e, Point(k, 1));
      }
    }
  }

  /** The report adds up, whatever the environment did. */
  lemma ReportAddsUp(o: Options, e: Environment, n: nat)
    requires FirstStop(o, e, n) && Concluded(o, e, n).Finished?
    ensures var r := Concluded(o, e, n).report;
            && r.attempts == Successes(e, r.attempts) + r.pollErrors
            && r.maxObserved == r.baseline + r.observedDelta
            && 0 <= r.observedDelta && r.lastObserved <= r.maxObserved
            && (forall j: nat | j < r.attempts && e.Read(j).Some? :: e.Read(j).value <= r.maxObserved)
            && (r.actionAttempted ==> o.hasAction && r.messageReady && r.actionSucceeded != r.actionFailed)
            && (!r.actionAttempted ==> !r.actionSucceeded && !r.actionFailed)
            && !(r.messageReady && r.messageCheckFailed)
            && (r.messageReady || r.messageCheckFailed ==> r.messageCheckAttempted)
            && (r.status == Confirmed ==>
                  && r.observedDelta > 0
                  && (!r.messageCheckAttempted || r.messageReady || r.messageCheckFailed))
  {
    var r := Concluded(o, e, n).report;
    Accounting(o, e, r.attempts);
    ActionRunsOnFirstReadyAttempt(o, e, r.attempts);
  }

  /** The call throws exactly if the deadline ended it with no successful read and no readiness by the last settle. */
  lemma ThrowsExactlyWithoutSignal(o: Options, e: Environment, n: nat)
    requires FirstStop(o, e, n)
    ensures var verdict := Judge(o, e, n);
            var made := AttemptsMade(verdict, n);
            Concluded(o, e, n) == NeverRead(made) <==>
              && verdict in {Late, Expired}
              && (forall j: nat | j < made :: e.Read(j).None?)
              && !ReadyBy(o, e, LastPoint(verdict, n) + 1)
  {
    Accounting(o, e, AttemptsMade(Judge(o, e, n), n));
  }
}
