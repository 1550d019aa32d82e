/** What happened to a bridge call, over every run: the class of the call tied to the events that gave it. */
module ProtocolHistory {
  import opened Outcomes
  import opened Protocol
  import opened ProtocolSafety
  import opened ProtocolProperties

  // ---- One step ----

  predicate Storing(s: State, k: nat) {
    s.store.entry.Held? && s.store.entry.record.id == k
  }

  /** A clear for this reason takes effect. */
  predicate ClearTakesEffect(s: State, e: Event, reason: ClearReason) {
    e == Body(0, Commit) && s.bodies != [] && s.bodies[0] == Clearing(reason, false)
  }

  /** The write of `r` takes effect. */
  predicate WriteTakesEffect(s: State, e: Event, r: Record, wellFormed: bool) {
    e == Body(0, Commit) && s.bodies != [] && s.bodies[0] == Saving(r, wellFormed, false)
  }

  /** The write of call `k` fails without having taken effect, or the process ends before it. */
  predicate LosesCall(s: State, e: Event, k: nat) {
    k < |s.store.calls| && s.store.calls[k] == Unsaved && (e == Body(0, Fail) || e == Exit)
  }

  /** The event that gives call `k` a class. */
  ghost predicate Gives(s: State, e: Event, k: nat, fate: Fate) {
    match fate
    case Unsaved => false
    case Saved => exists r :: WriteTakesEffect(s, e, r, true) && r.id == k
    case Cleared => Storing(s, k) && (ClearTakesEffect(s, e, Reconciled) || ClearTakesEffect(s, e, Settled))
    case Evicted(ageMs) => Storing(s, k) && ClearTakesEffect(s, e, TooOld(ageMs))
    case Unreadable =>
      || (Storing(s, k) && (ClearTakesEffect(s, e, ReadFailed) || e == Corrupt))
      || (exists r :: WriteTakesEffect(s, e, r, false) && r.id == k)
    case Lost => LosesCall(s, e, k)
    case Overwritten => Storing(s, k) && exists r, wellFormed :: WriteTakesEffect(s, e, r, wellFormed)
  }

  lemma CommitGives(s: State, k: nat, fate: Fate)
    requires Inv(s) && |s.bodies| == 1 && k < |s.store.calls| && CommitStep(s, 0).Some? && s.store.calls[k] != fate
    ensures CommitStep(s, 0).value.store.calls[k] == fate <==> Gives(s, Body(0, Commit), k, fate)
  {
    match s.bodies[0]
    case Saving(r, wellFormed, _) =>
      assert WriteTakesEffect(s, Body(0, Commit), r, wellFormed);
    case Clearing(reason, _) =>
      assert ClearTakesEffect(s, Body(0, Commit), reason);
  }

  lemma FailGives(s: State, k: nat, fate: Fate)
    requires Inv(s) && |s.bodies| == 1 && k < |s.store.calls| && FailStep(s, 0).Some? && s.store.calls[k] != fate
    ensures FailStep(s, 0).value.store.calls[k] == fate <==> Gives(s, Body(0, Fail), k, fate)
  {
  }

  lemma BodyGives(threshold: int, s: State, action: Action, k: nat, fate: Fate)
    requires Inv(s) && |s.bodies| == 1 && s.up && k < |s.store.calls| && s.store.calls[k] != fate
    requires BodyStep(threshold, s, 0, action).Some?
    ensures |s.store.calls| <= |BodyStep(threshold, s, 0, action).value.store.calls|
    ensures BodyStep(threshold, s, 0, action).value.store.calls[k] == fate <==> Gives(s, Body(0, action), k, fate)
  {
    hide CommitStep, AckStep, FailStep, PollEndedStep, Gives, Inv;
    StoreStepIsQuiet(s);
    match action
    case Commit => CommitGives(s, k, fate);
    case Fail => FailGives(s, k, fate);
    case PollEnded(status, observed) =>
      PollStepIsQuiet(s, status, observed);
      NothingGiven(s, action, k, fate);
    case _ => NothingGiven(s, action, k, fate);
  }

  lemma NothingGiven(s: State, action: Action, k: nat, fate: Fate)
    requires action != Commit && action != Fail
    ensures !Gives(s, Body(0, action), k, fate)
  {
  }

  /** A step gives a call a new class exactly when the event that class stands for happens to that call. */
  lemma ClassGivenExactlyWhen(threshold: int, s: State, e: Event, k: nat, fate: Fate)
    requires Inv(s) && Next(threshold, s, e).Some? && k < |s.store.calls| && s.store.calls[k] != fate
    ensures |s.store.calls| <= |Next(threshold, s, e).value.store.calls|
    ensures Next(threshold, s, e).value.store.calls[k] == fate <==> Gives(s, e, k, fate)
  {
    hide BodyStep;
    if e.Body? {
      hide Gives;
      BodyGives(threshold, s, e.action, k, fate);
    }
  }

  lemma NewCallIsUnsaved(threshold: int, s: State, e: Event)
    requires Inv(s) && Next(threshold, s, e).Some?
    requires |Next(threshold, s, e).value.store.calls| > |s.store.calls|
    ensures Next(threshold, s, e).value.store.calls == s.store.calls + [Unsaved]
  {
    SubmittedStep(threshold, s, e);
  }

  // ---- Over a run ----

  /** The records of the bridge calls that resolved, and the calls that a poll of their own confirmed. */
  datatype Trail = Trail(born: seq<Record>, confirmed: set<nat>)

  const NOTHING := Trail([], {})

  /** A bridge call resolves; `r` is its record. */
  predicate Births(s: State, e: Event, r: Record) {
    && e.Body? && e.action.Bridged? && e.i < |s.bodies| && s.bodies[e.i].Bridging?
    && r == Record(|s.store.calls|, s.bodies[e.i].baseline, e.action.atMs)
  }

  /** The poll of the call with record `r` ends confirmed: it observed more than that call's baseline. */
  predicate Confirms(s: State, e: Event, r: Record) {
    && e.Body? && e.action.PollEnded? && e.action.status == Confirmed && e.i < |s.bodies|
    && (s.bodies[e.i] == Settling(r) || s.bodies[e.i] == Polling(r))
    && e.action.observed > r.baseline
  }

  function NextTrail(s: State, e: Event, t: Trail): Trail {
    if !e.Body? || e.i >= |s.bodies| then t
    else
      var pc := s.bodies[e.i];
      match e.action
      case Bridged(_, atMs) =>
        if pc.Bridging? then t.(born := t.born + [Record(|s.store.calls|, pc.baseline, atMs)]) else t
      case PollEnded(Confirmed, observed) =>
        if (pc.Settling? || pc.Polling?) && observed > pc.record.baseline
        then t.(confirmed := t.confirmed + {pc.record.id}) else t
      case _ => t
  }

  function TrailOf(threshold: int, s: State, t: Trail, es: seq<Event>): Trail
    decreases |es|
  {
    if es == [] then t
    else match Next(threshold, s, es[0])
      case None => t
      case Some(s') => TrailOf(threshold, s', NextTrail(s, es[0], t), es[1..])
  }

  predicate Own(r: Record, t: Trail) {
    r.id < |t.born| && t.born[r.id] == r
  }

  /** The record that a body works on. */
  predicate BodyRecordOk(s: State, t: Trail, pc: Pc) {
    match pc
    case Settling(r) => Own(r, t) && (s.store.entry.Held? ==> s.store.entry.record == r)
    case Polling(r) => Own(r, t) && (s.store.entry.Held? ==> s.store.entry.record == r)
    case Saving(r, _, committed) => Own(r, t) && (committed && s.store.entry.Held? ==> s.store.entry.record == r)
    case Clearing(reason, false) =>
      (reason.Reconciled? || reason.Settled?) && s.store.entry.Held? ==> s.store.entry.record.id in t.confirmed
    case _ => true
  }

  predicate TrailInv(s: State, t: Trail) {
    && |t.born| == |s.store.calls|
    && (forall k | 0 <= k < |t.born| :: t.born[k].id == k)
    && (s.store.entry.Held? ==> Own(s.store.entry.record, t))
    && (s.bodies != [] ==> BodyRecordOk(s, t, s.bodies[0]))
    && (forall k | 0 <= k < |s.store.calls| :: s.store.calls[k] == Cleared ==> k in t.confirmed)
  }

  lemma CommitKeepsTrail(s: State, t: Trail)
    requires Inv(s) && TrailInv(s, t) && |s.bodies| == 1 && CommitStep(s, 0).Some?
    ensures TrailInv(CommitStep(s, 0).value, t)
  {
  }

  lemma AckKeepsTrail(s: State, t: Trail)
    requires Inv(s) && TrailInv(s, t) && |s.bodies| == 1 && AckStep(s, 0).Some?
    ensures TrailInv(AckStep(s, 0).value, t)
  {
  }

  lemma FailKeepsTrail(s: State, t: Trail)
    requires Inv(s) && TrailInv(s, t) && |s.bodies| == 1 && FailStep(s, 0).Some?
    ensures TrailInv(FailStep(s, 0).value, t)
  {
  }

  lemma PollKeepsTrail(s: State, t: Trail, status: Status, observed: int)
    requires Inv(s) && TrailInv(s, t) && |s.bodies| == 1 && PollEndedStep(s, 0, status, observed).Some?
    ensures TrailInv(PollEndedStep(s, 0, status, observed).value,
                     NextTrail(s, Body(0, PollEnded(status, observed)), t))
  {
  }

  lemma CheckerKeepsTrail(threshold: int, s: State, t: Trail, action: Action)
    requires Inv(s) && TrailInv(s, t) && |s.bodies| == 1 && s.up && BodyStep(threshold, s, 0, action).Some?
    requires !action.Commit? && !action.Ack? && !action.Fail? && !action.PollEnded?
    ensures TrailInv(BodyStep(threshold, s, 0, action).value, NextTrail(s, Body(0, action), t))
  {
    hide CommitStep, AckStep, FailStep, PollEndedStep;
  }

  lemma BodyKeepsTrail(threshold: int, s: State, t: Trail, action: Action)
    requires Inv(s) && TrailInv(s, t) && |s.bodies| == 1 && s.up && BodyStep(threshold, s, 0, action).Some?
    ensures TrailInv(BodyStep(threshold, s, 0, action).value, NextTrail(s, Body(0, action), t))
  {
    hide CommitStep, AckStep, FailStep, PollEndedStep, TrailInv, Inv;
    match action
    case Commit => CommitKeepsTrail(s, t);
    case Ack => AckKeepsTrail(s, t);
    case Fail => FailKeepsTrail(s, t);
    case PollEnded(status, observed) => PollKeepsTrail(s, t, status, observed);
    case _ => CheckerKeepsTrail(threshold, s, t, action);
  }

  lemma NextKeepsTrail(threshold: int, s: State, t: Trail, e: Event)
    requires Inv(s) && TrailInv(s, t) && Next(threshold, s, e).Some?
    ensures TrailInv(Next(threshold, s, e).value, NextTrail(s, e, t))
  {
    hide BodyStep;
    if e.Body? {
      BodyKeepsTrail(threshold, s, t, e.action);
    }
  }

  lemma {:induction false} RunKeepsTrail(threshold: int, s: State, t: Trail, es: seq<Event>)
    requires Inv(s) && TrailInv(s, t) && Run(threshold, s, es).Some?
    ensures TrailInv(Run(threshold, s, es).value, TrailOf(threshold, s, t, es))
    decreases |es|
  {
    if es != [] {
      hide Inv, TrailInv, Next, NextTrail;
      NextKeepsInv(threshold, s, es[0]);
      NextKeepsTrail(threshold, s, t, es[0]);
      RunKeepsTrail(threshold, Next(threshold, s, es[0]).value, NextTrail(s, es[0], t), es[1..]);
    }
  }

  // ---- What the trail has seen ----

  /** A run and the state before its event `i`. */
  ghost predicate Before(threshold: int, s: State, es: seq<Event>, i: nat, si: State) {
    i < |es| && Run(threshold, s, es[..i]) == Some(si)
  }

  ghost predicate BornAt(threshold: int, s: State, es: seq<Event>, i: nat, r: Record) {
    exists si :: Before(threshold, s, es, i, si) && Births(si, es[i], r)
  }

  ghost predicate ConfirmedAt(threshold: int, s: State, es: seq<Event>, i: nat, r: Record) {
    exists si :: Before(threshold, s, es, i, si) && Confirms(si, es[i], r)
  }

  /** Event `i` gives call `k` its class. */
  ghost predicate GivenAt(threshold: int, s: State, es: seq<Event>, i: nat, k: nat, fate: Fate) {
    exists si :: Before(threshold, s, es, i, si) && Gives(si, es[i], k, fate)
  }

  lemma BeforeLater(threshold: int, s: State, es: seq<Event>, i: nat, si: State)
    requires es != [] && Next(threshold, s, es[0]).Some?
    requires Before(threshold, Next(threshold, s, es[0]).value, es[1..], i, si)
    ensures Before(threshold, s, es, i + 1, si) && es[i + 1] == es[1..][i]
  {
    assert es[..i + 1][1..] == es[1..][..i];
  }

  lemma BeforeFirst(threshold: int, s: State, es: seq<Event>)
    requires es != []
    ensures Before(threshold, s, es, 0, s)
  {
  }

  lemma {:induction false} BornWasSeen(threshold: int, s: State, t: Trail, es: seq<Event>, k: nat) returns (i: nat)
    requires Run(threshold, s, es).Some? && |t.born| <= k < |TrailOf(threshold, s, t, es).born|
    ensures BornAt(threshold, s, es, i, TrailOf(threshold, s, t, es).born[k])
    decreases |es|
  {
    hide Next;
    var s', t' := Next(threshold, s, es[0]).value, NextTrail(s, es[0], t);
    if k < |t'.born| {
      BeforeFirst(threshold, s, es);
      assert Births(s, es[0], t'.born[k]);
      TrailOnlyGrows(threshold, s', t', es[1..]);
      i := 0;
    } else {
      i := BornWasSeen(threshold, s', t', es[1..], k);
      var r := TrailOf(threshold, s, t, es).born[k];
      var si :| Before(threshold, s', es[1..], i, si) && Births(si, es[1..][i], r);
      BeforeLater(threshold, s, es, i, si);
      i := i + 1;
    }
  }

  lemma {:induction false} TrailOnlyGrows(threshold: int, s: State, t: Trail, es: seq<Event>)
    ensures t.born <= TrailOf(threshold, s, t, es).born
    decreases |es|
  {
    if es != [] && Next(threshold, s, es[0]).Some? {
      hide Next;
      TrailOnlyGrows(threshold, Next(threshold, s, es[0]).value, NextTrail(s, es[0], t), es[1..]);
    }
  }

  lemma {:induction false} ConfirmedWasSeen(threshold: int, s: State, t: Trail, es: seq<Event>, k: nat)
    returns (i: nat, r: Record)
    requires Run(threshold, s, es).Some? && k in TrailOf(threshold, s, t, es).confirmed && k !in t.confirmed
    ensures r.id == k && ConfirmedAt(threshold, s, es, i, r)
    decreases |es|
  {
    hide Next;
    var s', t' := Next(threshold, s, es[0]).value, NextTrail(s, es[0], t);
    if k in t'.confirmed {
      i, r := 0, s.bodies[es[0].i].record;
      BeforeFirst(threshold, s, es);
      assert Confirms(s, es[0], r);
    } else {
      i, r := ConfirmedWasSeen(threshold, s', t', es[1..], k);
      var si :| Before(threshold, s', es[1..], i, si) && Confirms(si, es[1..][i], r);
      BeforeLater(threshold, s, es, i, si);
      i := i + 1;
    }
  }

  // ---- The classes over every run ----

  lemma {:induction false} RunSplits(threshold: int, s: State, es: seq<Event>, i: nat)
    requires Run(threshold, s, es).Some? && i <= |es|
    ensures Run(threshold, s, es[..i]).Some?
    ensures Run(threshold, s, es) == Run(threshold, Run(threshold, s, es[..i]).value, es[i..])
    decreases |es|
  {
    if i > 0 {
      assert es[..i][1..] == es[1..][..i - 1] && es[1..][i - 1..] == es[i..];
      RunSplits(threshold, Next(threshold, s, es[0]).value, es[1..], i - 1);
    } else {
      assert es[..0] == [] && es[0..] == es;
    }
  }

  /**
    A call is cleared only after a poll of its own: the record that poll worked on is the record the call itself left
    when it resolved, and the poll observed more than the baseline in it.
  */
  lemma ClearedMeansConfirmed(threshold: int, es: seq<Event>, k: nat) returns (r: Record, i: nat, j: nat)
    requires Run(threshold, INITIAL, es).Some?
    requires var calls := Run(threshold, INITIAL, es).value.store.calls; k < |calls| && calls[k] == Cleared
    ensures r.id == k && i < j
    ensures BornAt(threshold, INITIAL, es, i, r) && ConfirmedAt(threshold, INITIAL, es, j, r)
  {
    hide Next, TrailOf, NextTrail;
    RunKeepsTrail(threshold, INITIAL, NOTHING, es);
    j, r := ConfirmedWasSeen(threshold, INITIAL, NOTHING, es, k);
    var sj :| Before(threshold, INITIAL, es, j, sj) && Confirms(sj, es[j], r);
    RunSplits(threshold, INITIAL, es, j);
    var t := TrailOf(threshold, INITIAL, NOTHING, es[..j]);
    RunKeepsTrail(threshold, INITIAL, NOTHING, es[..j]);
    RunKeepsInv(threshold, INITIAL, es[..j]);
    StandsAtOwnRecord(threshold, es[..j], t, sj, es[j], r);
    i := BornWasSeen(threshold, INITIAL, NOTHING, es[..j], k);
    var si :| Before(threshold, INITIAL, es[..j], i, si) && Births(si, es[..j][i], r);
    assert es[..j][..i] == es[..i];
    assert Before(threshold, INITIAL, es, i, si);
  }

  lemma StandsAtOwnRecord(threshold: int, es: seq<Event>, t: Trail, s: State, e: Event, r: Record)
    requires Inv(s) && TrailInv(s, t) && Confirms(s, e, r)
    ensures r.id < |t.born| && t.born[r.id] == r
  {
  }

  /** Only tracked calls are given a class. */
  lemma GivenToTracked(s: State, e: Event, k: nat, fate: Fate)
    requires Inv(s) && Gives(s, e, k, fate)
    ensures k < |s.store.calls| && Tracked(s.store.calls[k]) && s.store.calls[k] != fate
  {
  }

  lemma {:induction false} ClassWasGiven(threshold: int, s: State, es: seq<Event>, k: nat, fate: Fate) returns (i: nat)
    requires Inv(s) && Run(threshold, s, es).Some? && fate != Unsaved
    requires k < |Run(threshold, s, es).value.store.calls| && Run(threshold, s, es).value.store.calls[k] == fate
    requires k < |s.store.calls| ==> s.store.calls[k] != fate
    ensures GivenAt(threshold, s, es, i, k, fate)
    decreases |es|
  {
    hide Next, Inv, Gives;
    var s' := Next(threshold, s, es[0]).value;
    if k < |s.store.calls| {
      ClassGivenExactlyWhen(threshold, s, es[0], k, fate);
    } else if k < |s'.store.calls| {
      NewCallIsUnsaved(threshold, s, es[0]);
    }
    if k < |s'.store.calls| && s'.store.calls[k] == fate {
      i := 0;
      BeforeFirst(threshold, s, es);
    } else {
      NextKeepsInv(threshold, s, es[0]);
      i := ClassWasGiven(threshold, s', es[1..], k, fate);
      var si :| Before(threshold, s', es[1..], i, si) && Gives(si, es[1..][i], k, fate);
      BeforeLater(threshold, s, es, i, si);
      i := i + 1;
    }
  }

  lemma GivenForGood(threshold: int, es: seq<Event>, i: nat, si: State, k: nat, fate: Fate)
    requires Run(threshold, INITIAL, es).Some? && Final(fate)
    requires Before(threshold, INITIAL, es, i, si) && Gives(si, es[i], k, fate)
    ensures k < |Run(threshold, INITIAL, es).value.store.calls|
    ensures Run(threshold, INITIAL, es).value.store.calls[k] == fate
  {
    RunSplits(threshold, INITIAL, es, i);
    RunKeepsInv(threshold, INITIAL, es[..i]);
    hide Next, Inv, Gives;
    var rest := es[i..];
    assert rest[0] == es[i];
    GivenToTracked(si, es[i], k, fate);
    ClassGivenExactlyWhen(threshold, si, es[i], k, fate);
    NextKeepsInv(threshold, si, es[i]);
    FinalFateStays(threshold, Next(threshold, si, es[i]).value, rest[1..], k);
  }

  /**
    Over every run a call is in a final class exactly if the event that the class stands for once happened to it: it was
    cleared after a confirmation, evicted at that age, dropped as unreadable, lost before it was written, or
    overwritten.
  */
  lemma FinalClassExactlyWhen(threshold: int, es: seq<Event>, k: nat, fate: Fate)
    requires Run(threshold, INITIAL, es).Some? && Final(fate)
    requires k < |Run(threshold, INITIAL, es).value.store.calls|
    ensures Run(threshold, INITIAL, es).value.store.calls[k] == fate <==>
              exists i: nat :: GivenAt(threshold, INITIAL, es, i, k, fate)
  {
    assert Inv(INITIAL);
    hide Next, Inv, Gives;
    if Run(threshold, INITIAL, es).value.store.calls[k] == fate {
      var i := ClassWasGiven(threshold, INITIAL, es, k, fate);
    }
    if i: nat :| GivenAt(threshold, INITIAL, es, i, k, fate) {
      var si :| Before(threshold, INITIAL, es, i, si) && Gives(si, es[i], k, fate);
      GivenForGood(threshold, es, i, si, k, fate);
    }
  }

  ghost predicate LostAt(threshold: int, es: seq<Event>, i: nat, k: nat) {
    exists si :: Before(threshold, INITIAL, es, i, si) && LosesCall(si, es[i], k)
  }

  /** A call is lost exactly if its write failed without taking effect or the process ended before it took effect. */
  lemma LostExactlyWhen(threshold: int, es: seq<Event>, k: nat)
    requires Run(threshold, INITIAL, es).Some? && k < |Run(threshold, INITIAL, es).value.store.calls|
    ensures Run(threshold, INITIAL, es).value.store.calls[k] == Lost <==>
              exists i: nat :: LostAt(threshold, es, i, k)
  {
    hide Run;
    FinalClassExactlyWhen(threshold, es, k, Lost);
    assert forall i: nat :: LostAt(threshold, es, i, k) <==> GivenAt(threshold, INITIAL, es, i, k, Lost);
  }

  // ---- Misread records ----

  /** A read throws while a well-formed record is stored. */
  predicate Misreads(s: State, e: Event) {
    e.Body? && e.action.Read? && e.action.threw && s.store.entry.Held?
  }

  /** The misread record is gone, replaced or read anew: a store operation took effect, or a cycle or process began. */
  predicate EndsMisread(s: State, e: Event) {
    || (e.Body? && e.action.Commit?)
    || e == Corrupt || e == Exit || e == Start
    || (e == Tick && !s.loop.aborted && !s.loop.inFlight)
  }

  lemma MisreadStep(threshold: int, s: State, e: Event)
    requires Inv(s) && Next(threshold, s, e).Some?
    ensures Next(threshold, s, e).value.misread <==> Misreads(s, e) || (s.misread && !EndsMisread(s, e))
  {
  }

  ghost predicate MisreadAt(threshold: int, es: seq<Event>, i: nat) {
    exists si :: Before(threshold, INITIAL, es, i, si) && Misreads(si, es[i])
  }

  ghost predicate MisreadEndedAt(threshold: int, es: seq<Event>, i: nat) {
    exists si :: Before(threshold, INITIAL, es, i, si) && EndsMisread(si, es[i])
  }

  /** Event `i` misread the record, and nothing since has ended that. */
  ghost predicate StillMisread(threshold: int, es: seq<Event>, i: nat) {
    MisreadAt(threshold, es, i) && forall j: nat | i < j < |es| :: !MisreadEndedAt(threshold, es, j)
  }

  /** What happened at event `j` of a run happened there in every longer run. */
  lemma SamePrefix(threshold: int, es: seq<Event>, n: nat, j: nat)
    requires j < n <= |es|
    ensures MisreadAt(threshold, es[..n], j) <==> MisreadAt(threshold, es, j)
    ensures MisreadEndedAt(threshold, es[..n], j) <==> MisreadEndedAt(threshold, es, j)
  {
    assert es[..n][..j] == es[..j] && es[..n][j] == es[j];
    assert forall si :: Before(threshold, INITIAL, es[..n], j, si) <==> Before(threshold, INITIAL, es, j, si);
  }

  lemma StillMisreadGrows(threshold: int, es: seq<Event>, i: nat)
    requires es != [] && i < |es| - 1
    ensures StillMisread(threshold, es, i) <==>
              StillMisread(threshold, es[..|es| - 1], i) && !MisreadEndedAt(threshold, es, |es| - 1)
  {
    var n := |es| - 1;
    forall j: nat | j < n
      ensures MisreadAt(threshold, es[..n], j) <==> MisreadAt(threshold, es, j)
      ensures MisreadEndedAt(threshold, es[..n], j) <==> MisreadEndedAt(threshold, es, j)
    {
      SamePrefix(threshold, es, n, j);
    }
    hide MisreadAt, MisreadEndedAt;
  }

  /** The last event of a run, and the state before it. */
  lemma LastEvent(threshold: int, es: seq<Event>) returns (s: State)
    requires es != [] && Run(threshold, INITIAL, es).Some?
    ensures Run(threshold, INITIAL, es[..|es| - 1]) == Some(s)
    ensures Before(threshold, INITIAL, es, |es| - 1, s)
    ensures Next(threshold, s, es[|es| - 1]) == Run(threshold, INITIAL, es)
    ensures MisreadAt(threshold, es, |es| - 1) <==> Misreads(s, es[|es| - 1])
    ensures MisreadEndedAt(threshold, es, |es| - 1) <==> EndsMisread(s, es[|es| - 1])
  {
    hide Next;
    RunSplits(threshold, INITIAL, es, |es| - 1);
    s := Run(threshold, INITIAL, es[..|es| - 1]).value;
    assert es[|es| - 1..] == [es[|es| - 1]];
  }

  /** The state has misread its record exactly if some read did over the run, and nothing has ended that since. */
  lemma {:induction false} MisreadExactlyWhen(threshold: int, es: seq<Event>)
    requires Run(threshold, INITIAL, es).Some?
    ensures Run(threshold, INITIAL, es).value.misread <==> exists i: nat :: i < |es| && StillMisread(threshold, es, i)
    decreases |es|
  {
    if es != [] {
      var n, e := |es| - 1, es[|es| - 1];
      var s := LastEvent(threshold, es);
      MisreadExactlyWhen(threshold, es[..n]);
      RunKeepsInv(threshold, INITIAL, es[..n]);
      MisreadStep(threshold, s, e);
      hide Next, Inv, Misreads, EndsMisread;
      forall i: nat | i < n
        ensures StillMisread(threshold, es, i) <==> StillMisread(threshold, es[..n], i) && !EndsMisread(s, e)
      {
        StillMisreadGrows(threshold, es, i);
      }
      assert StillMisread(threshold, es, n) <==> Misreads(s, e);
      hide StillMisread;
    }
  }

  /**
    Two bridges are tracked at the end of a run exactly if the cycle under way has a new one unsaved and read the record
    of the other in vain, with no store operation taking effect and no corruption since.
  */
  lemma TwoTrackedExactlyWhen(threshold: int, es: seq<Event>)
    requires Run(threshold, INITIAL, es).Some?
    ensures var s := Run(threshold, INITIAL, es).value;
            TwoTracked(s) <==>
              && s.bodies != [] && s.bodies[0].Saving?
              && exists i: nat :: i < |es| && StillMisread(threshold, es, i)
  {
    var s := Run(threshold, INITIAL, es).value;
    assert Reachable(threshold, s);
    TwoTrackedExactlyAfterMisread(threshold, s);
    MisreadExactlyWhen(threshold, es);
  }

  // ---- Honest reads ----

  /** A call is overwritten only in a cycle that misread its record. */
  lemma OverwrittenOnlyAfterMisread(threshold: int, s: State, e: Event, k: nat)
    requires Inv(s) && Next(threshold, s, e).Some? && k < |s.store.calls| && !s.misread
    requires s.store.calls[k] != Overwritten
    ensures k < |Next(threshold, s, e).value.store.calls|
    ensures Next(threshold, s, e).value.store.calls[k] != Overwritten
  {
    hide Next;
    ClassGivenExactlyWhen(threshold, s, e, k, Overwritten);
  }

  /** With honest reads no bridge call is ever overwritten. */
  lemma {:induction false} HonestRunsOverwriteNone(threshold: int, s: State, es: seq<Event>)
    requires Inv(s) && !s.misread && HonestReads(threshold, s, es) && Run(threshold, s, es).Some?
    requires Overwritten !in s.store.calls
    ensures Overwritten !in Run(threshold, s, es).value.store.calls
    decreases |es|
  {
    if es != [] {
      hide Next, Inv;
      var s' := Next(threshold, s, es[0]).value;
      NextKeepsInv(threshold, s, es[0]);
      NextStaysHonest(threshold, s, es[0]);
      SubmittedStep(threshold, s, es[0]);
      forall k | 0 <= k < |s'.store.calls| ensures s'.store.calls[k] != Overwritten {
        if k < |s.store.calls| {
          OverwrittenOnlyAfterMisread(threshold, s, es[0], k);
        } else {
          NewCallIsUnsaved(threshold, s, es[0]);
        }
      }
      HonestRunsOverwriteNone(threshold, s', es[1..]);
    }
  }

  /**
    If reads throw only on ill-formed entries, at most one bridge call is ever tracked and none is ever overwritten.
  */
  lemma HonestRunsTrackOne(threshold: int, es: seq<Event>)
    requires HonestReads(threshold, INITIAL, es) && Run(threshold, INITIAL, es).Some?
    ensures var s := Run(threshold, INITIAL, es).value;
            && !TwoTracked(s) && Overwritten !in s.store.calls
            && (s.bodies != [] && (s.bodies[0].Bridging? || (s.bodies[0].Saving? && !s.bodies[0].committed))
               ==> !s.store.entry.Held?)
  {
    var s := Run(threshold, INITIAL, es).value;
    assert Reachable(threshold, s);
    HonestRunsNeverMisread(threshold, INITIAL, es);
    ReachableKeepsInv(threshold, s);
    TwoTrackedExactlyAfterMisread(threshold, s);
    HonestRunsOverwriteNone(threshold, INITIAL, es);
  }
}
