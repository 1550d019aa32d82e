/**
  One reconciliation as a function of what it meets (services/topup/src/reconcile.ts), and how eviction bounds the life
  of a persisted record.
*/
module Reconcile {
  import opened Division
  import opened Outcomes
  import opened Protocol

  /** How the confirmation poll for the persisted record ends. */
  datatype Polled = Reported(status: Status) | PollFailed

  datatype Outcome = NothingToDo | BridgeConfirmed | StillPending | Interrupted | Exception

  /** The balance check may run after this outcome. */
  predicate Admits(outcome: Outcome) {
    outcome.NothingToDo? || outcome.BridgeConfirmed?
  }

  function Cleaned(entry: Entry, fault: Fault): Entry {
    if fault.FailsBefore? then entry else Absent
  }

  function Reconciliation(entry: Entry, nowMs: int, misread: bool, clearFault: Fault, polled: Polled)
    : (Outcome, Entry)
  {
    if misread || entry.Junk? then (NothingToDo, Cleaned(entry, clearFault))
    else if entry.Absent? then (NothingToDo, Absent)
    else if nowMs - entry.record.submittedAtMs > RECONCILIATION_MAX_AGE_MS then
      (if clearFault.Works? then NothingToDo else Exception, Cleaned(entry, clearFault))
    else match polled
      case PollFailed => (Exception, entry)
      case Reported(Aborted) => (Interrupted, entry)
      case Reported(Timeout) => (StillPending, entry)
      case Reported(Confirmed) =>
        (if clearFault.Works? then BridgeConfirmed else Exception, Cleaned(entry, clearFault))
  }

  /**
    A check is admitted while a well-formed record stays stored exactly if the read of it threw and the best-effort
    clear took no effect.
  */
  lemma AdmitsOverRecordExactlyWhenMisread(entry: Entry, nowMs: int, misread: bool, clearFault: Fault, polled: Polled)
    ensures var (outcome, entry') := Reconciliation(entry, nowMs, misread, clearFault, polled);
            Admits(outcome) && entry'.Held? <==> entry.Held? && misread && clearFault.FailsBefore?
  {
  }

  /** A record is removed only when it is old, confirmed, or could not be read. */
  lemma YoungRecordSurvivesUnlessConfirmed(entry: Entry, nowMs: int, clearFault: Fault, polled: Polled)
    requires entry.Held? && nowMs - entry.record.submittedAtMs <= RECONCILIATION_MAX_AGE_MS
    requires polled != Reported(Confirmed)
    ensures var (outcome, entry') := Reconciliation(entry, nowMs, false, clearFault, polled);
            entry' == entry && !Admits(outcome)
  {
  }

  // ---- Eviction breaks the deadlock ----

  /** A reconciliation that reads the store and whose clear succeeds, if it clears. */
  datatype Round = Round(nowMs: int, polled: Polled)

  function Rounds(entry: Entry, rounds: seq<Round>): Entry {
    if rounds == [] then entry
    else
      var last := rounds[|rounds| - 1];
      Reconciliation(Rounds(entry, rounds[..|rounds| - 1]), last.nowMs, false, Works, last.polled).1
  }

  /** Reconciliations start at least `gapMs` apart, the first not before the submission. */
  ghost predicate Spaced(rounds: seq<Round>, startMs: int, gapMs: nat) {
    && (rounds != [] ==> rounds[0].nowMs >= startMs)
    && (forall k | 0 < k < |rounds| :: rounds[k].nowMs >= rounds[k - 1].nowMs + gapMs)
  }

  lemma {:induction false} SpacedTime(rounds: seq<Round>, startMs: int, gapMs: nat, k: nat)
    requires Spaced(rounds, startMs, gapMs) && k < |rounds|
    ensures rounds[k].nowMs >= startMs + k * gapMs
  {
    if k > 0 {
      SpacedTime(rounds, startMs, gapMs, k - 1);
      assert (k - 1) * gapMs + gapMs == k * gapMs;
    }
  }

  lemma {:induction false} RoundsKeepOrRemove(entry: Entry, rounds: seq<Round>)
    requires !entry.Junk?
    ensures Rounds(entry, rounds) == entry || Rounds(entry, rounds) == Absent
    ensures entry.Held? && Rounds(entry, rounds) == entry && rounds != [] ==>
              && rounds[|rounds| - 1].nowMs - entry.record.submittedAtMs <= RECONCILIATION_MAX_AGE_MS
              && Rounds(entry, rounds[..|rounds| - 1]) == entry
  {
    if rounds != [] {
      RoundsKeepOrRemove(entry, rounds[..|rounds| - 1]);
    }
  }

  /**
    Whatever the node reports, a record survives at most floor(24 h / gap) + 1 reconciliations; the one that removes it
    admits the balance check.
  */
  lemma EvictionBoundsSurvival(r: Record, rounds: seq<Round>, gapMs: nat)
    requires gapMs > 0 && Spaced(rounds, r.submittedAtMs, gapMs)
    ensures Rounds(Held(r), rounds) == Held(r) ==> |rounds| <= RECONCILIATION_MAX_AGE_MS / gapMs + 1
    ensures Rounds(Held(r), rounds) != Held(r) ==> Rounds(Held(r), rounds) == Absent
  {
    RoundsKeepOrRemove(Held(r), rounds);
    if rounds != [] && Rounds(Held(r), rounds) == Held(r) {
      SpacedTime(rounds, r.submittedAtMs, gapMs, |rounds| - 1);
      QuotientIsGreatest(RECONCILIATION_MAX_AGE_MS, gapMs, |rounds| - 1);
    }
  }

  /** The reconciliation that empties the store lets the check run. */
  lemma RemovalAdmitsCheck(entry: Entry, round: Round)
    requires entry.Held?
    ensures var (outcome, entry') := Reconciliation(entry, round.nowMs, false, Works, round.polled);
            entry' == Absent <==> Admits(outcome)
  {
  }

  function PendingRounds(startMs: int, gapMs: nat, n: nat): seq<Round> {
    seq(n, k requires 0 <= k < n => Round(startMs + k * gapMs, Reported(Timeout)))
  }

  lemma PendingRoundsSpaced(startMs: int, gapMs: nat, n: nat)
    ensures Spaced(PendingRounds(startMs, gapMs, n), startMs, gapMs)
  {
    forall k | 0 < k < n ensures k * gapMs == (k - 1) * gapMs + gapMs {
    }
  }

  /**
    The bound is reached: with the shortest gaps and a bridge that never shows, the record survives exactly that long.
  */
  lemma {:induction false} EvictionBoundTight(r: Record, gapMs: nat, n: nat)
    requires gapMs > 0 && n <= RECONCILIATION_MAX_AGE_MS / gapMs + 1
    ensures Spaced(PendingRounds(r.submittedAtMs, gapMs, n), r.submittedAtMs, gapMs)
    ensures Rounds(Held(r), PendingRounds(r.submittedAtMs, gapMs, n)) == Held(r)
  {
    PendingRoundsSpaced(r.submittedAtMs, gapMs, n);
    if n > 0 {
      EvictionBoundTight(r, gapMs, n - 1);
      var rounds := PendingRounds(r.submittedAtMs, gapMs, n);
      assert rounds[..n - 1] == PendingRounds(r.submittedAtMs, gapMs, n - 1);
      QuotientIsGreatest(RECONCILIATION_MAX_AGE_MS, gapMs, n - 1);
    }
  }
}
