/**
  The top-up daemon as a protocol: every step between two awaits of the reconciliation, the balance check, the bridge
  and the shutdown, over one persisted entry (services/topup/src/index.ts, checker.ts, reconcile.ts).

  `Next` is deterministic; whatever the node, the store, the clock or the operating system decides is in the event.
  A store operation takes effect at `Commit`; it may fail before or after that, and the process may exit at any time.
*/
module Protocol {
  import opened Outcomes
  import opened BridgeRetry

  const RECONCILIATION_MAX_AGE_MS := 24 * 60 * 60 * 1000

  /** What the daemon keeps about the bridge call numbered `id`. */
  datatype Record = Record(id: nat, baseline: int, submittedAtMs: int)

  /** The stored entry: missing, rejected by the validators, or well-formed. */
  datatype Entry = Absent | Junk | Held(record: Record)

  /** The class of a bridge call that resolved. */
  datatype Fate =
    | Unsaved                // resolved, not yet persisted
    | Saved                  // persisted
    | Cleared                // cleared after a confirmation
    | Evicted(ageMs: int)    // cleared because of its age
    | Unreadable             // stored ill-formed, corrupted, or cleared after a failed read
    | Lost                   // never persisted
    | Overwritten            // replaced by a later write

  /** Why a body clears the entry. */
  datatype ClearReason = ReadFailed | TooOld(ageMs: int) | Reconciled | Settled

  /** Where a cycle body stands; `committed` says whether its pending store operation has taken effect. */
  datatype Pc =
    | Reconciling
    | Settling(record: Record)
    | Passed
    | ReadingBalance
    | Bridging(baseline: int, portalCalls: nat)
    | Saving(record: Record, wellFormed: bool, committed: bool)
    | Polling(record: Record)
    | Clearing(reason: ClearReason, committed: bool)
    | Releasing
    | Done

  /** What outlives the process. `calls` gives the class of every bridge call that resolved, in order. */
  datatype Store = Store(entry: Entry, calls: seq<Fate>)

  /** The cycle runner and the shutdown handler. */
  datatype Loop = Loop(inFlight: bool, stopping: bool, aborted: bool, draining: bool, dbClosed: bool)

  /** The bridge calls this process started and its `topup_bridge_events_total` counters. */
  datatype Tally = Tally(started: nat, submitted: nat, confirmed: nat, timeout: nat, aborted: nat, failed: nat)

  /** `misread` says that this cycle's read threw on a well-formed record which is still stored. */
  datatype State = State(
    store: Store,
    up: bool,
    loop: Loop,
    bodies: seq<Pc>,
    bridgeInFlight: bool,
    tally: Tally,
    misread: bool)

  datatype Action =
    | Read(now: int, threw: bool)
    | Commit
    | Ack
    | Fail
    | PollEnded(status: Status, observed: int)
    | PollThrew
    | Check
    | Balance(balance: Option<int>)
    | CallPortal
    | Bridged(wellFormed: bool, atMs: int)
    | BridgeThrew
    | Released
    | Finally

  datatype Event =
    | Tick                          // the interval timer, or the first call, runs a cycle
    | Body(i: nat, action: Action)  // cycle body `i` goes on
    | Shutdown                      // SIGTERM or SIGINT
    | CloseDb                       // the shutdown handler closes the database
    | Exit                          // the process ends, gracefully or not
    | Start                         // a new process opens the same database
    | Corrupt                       // something outside makes the entry ill-formed

  /** A new process over what the database holds. */
  function Process(store: Store, up: bool): State {
    State(store, up, Loop(false, false, false, false, false), [], false, Tally(0, 0, 0, 0, 0, 0), false)
  }

  const INITIAL := Process(Store(Absent, []), true)

  function SetFate(calls: seq<Fate>, id: nat, fate: Fate): (r: seq<Fate>)
    ensures |r| == |calls|
  {
    if id < |calls| then calls[id := fate] else calls
  }

  /** The stored record, if any, leaves the store with the given fate. */
  function Replace(store: Store, entry: Entry, fate: Fate): Store {
    Store(entry, if store.entry.Held? then SetFate(store.calls, store.entry.record.id, fate) else store.calls)
  }

  /** A record is written over whatever is stored; an ill-formed one is not readable. */
  function Put(store: Store, r: Record, wellFormed: bool): Store {
    var replaced := Replace(store, if wellFormed then Held(r) else Junk, Overwritten);
    replaced.(calls := SetFate(replaced.calls, r.id, if wellFormed then Saved else Unreadable))
  }

  function ClearedFate(reason: ClearReason): Fate {
    match reason
    case ReadFailed => Unreadable
    case TooOld(ageMs) => Evicted(ageMs)
    case Reconciled => Cleared
    case Settled => Cleared
  }

  function Goto(s: State, i: nat, pc: Pc): State
    requires i < |s.bodies|
  {
    s.(bodies := s.bodies[i := pc])
  }

  /** The bridge is over; the `finally` block is still to run. */
  function Leave(s: State, i: nat): State
    requires i < |s.bodies|
  {
    Goto(s, i, Releasing)
  }

  function CountStatus(e: Tally, status: Status): Tally {
    match status
    case Confirmed => e.(confirmed := e.confirmed + 1)
    case Timeout => e.(timeout := e.timeout + 1)
    case Aborted => e.(aborted := e.aborted + 1)
  }

  function Failed(s: State, i: nat): State
    requires i < |s.bodies|
  {
    Leave(s, i).(tally := s.tally.(failed := s.tally.failed + 1))
  }

  /** reconcile.ts: read, then drop, evict, or poll for the record found. */
  function ReadStep(s: State, i: nat, now: int, threw: bool): Option<State>
    requires i < |s.bodies|
  {
    if threw then Some(Goto(s, i, Clearing(ReadFailed, false)).(misread := s.store.entry.Held?))
    else match s.store.entry
      case Absent => Some(Goto(s, i, Passed))
      case Junk => None
      case Held(r) =>
        var age := now - r.submittedAtMs;
        Some(Goto(s, i, if age > RECONCILIATION_MAX_AGE_MS then Clearing(TooOld(age), false) else Settling(r)))
  }

  /** The pending store operation takes effect. */
  function CommitStep(s: State, i: nat): Option<State>
    requires i < |s.bodies|
  {
    match s.bodies[i]
    case Clearing(reason, false) =>
      var store := Replace(s.store, Absent, ClearedFate(reason));
      Some(Goto(s, i, Clearing(reason, true)).(store := store, misread := false))
    case Saving(r, wellFormed, false) =>
      Some(Goto(s, i, Saving(r, wellFormed, true)).(store := Put(s.store, r, wellFormed), misread := false))
    case _ => None
  }

  /** The pending store operation has succeeded. */
  function AckStep(s: State, i: nat): Option<State>
    requires i < |s.bodies|
  {
    match s.bodies[i]
    case Clearing(reason, true) => Some(if reason.Settled? then Leave(s, i) else Goto(s, i, Passed))
    case Saving(r, _, true) => Some(Goto(s, i, Polling(r)))
    case _ => None
  }

  /** The pending store operation has failed, whether or not it took effect. */
  function FailStep(s: State, i: nat): Option<State>
    requires i < |s.bodies|
  {
    match s.bodies[i]
    case Clearing(ReadFailed, _) => Some(Goto(s, i, Passed))  // clearing is best-effort here
    case Clearing(Settled, _) => Some(Leave(s, i))            // caught and logged
    case Clearing(_, _) => Some(Goto(s, i, Done))             // the exception ends the cycle
    case Saving(r, _, committed) =>
      var store := if committed then s.store else s.store.(calls := SetFate(s.store.calls, r.id, Lost));
      Some(Failed(s, i).(store := store))
    case _ => None
  }

  /** A confirmation poll ended; it confirms only above the baseline. */
  function PollEndedStep(s: State, i: nat, status: Status, observed: int): Option<State>
    requires i < |s.bodies|
  {
    match s.bodies[i]
    case Settling(r) =>
      if status != Confirmed then Some(Goto(s, i, Done))
      else if observed > r.baseline then Some(Goto(s, i, Clearing(Reconciled, false)))
      else None
    case Polling(r) =>
      var tally := CountStatus(s.tally, status);
      if status != Confirmed then Some(Leave(s, i).(tally := tally))
      else if observed > r.baseline then Some(Goto(s, i, Clearing(Settled, false)).(tally := tally))
      else None
    case _ => None
  }

  /** checker.ts: a balance below the threshold starts a bridge call unless the checker is stopping. */
  function BalanceStep(threshold: int, s: State, i: nat, balance: Option<int>): State
    requires i < |s.bodies|
  {
    if balance.None? || balance.value >= threshold || s.loop.stopping then Goto(s, i, Done)
    else
      Goto(s, i, Bridging(balance.value, 0))
        .(bridgeInFlight := true, tally := s.tally.(started := s.tally.started + 1))
  }

  function BodyStep(threshold: int, s: State, i: nat, action: Action): Option<State>
    requires i < |s.bodies|
  {
    var pc := s.bodies[i];
    match action
    case Read(now, threw) => if pc.Reconciling? then ReadStep(s, i, now, threw) else None
    case Commit => CommitStep(s, i)
    case Ack => AckStep(s, i)
    case Fail => FailStep(s, i)
    case PollEnded(status, observed) => PollEndedStep(s, i, status, observed)
    case PollThrew =>
      if pc.Settling? then Some(Goto(s, i, Done)) else if pc.Polling? then Some(Failed(s, i)) else None
    case Check =>
      if !pc.Passed? then None
      else Some(Goto(s, i, if s.loop.stopping || s.bridgeInFlight then Done else ReadingBalance))
    case Balance(balance) => if pc.ReadingBalance? then Some(BalanceStep(threshold, s, i, balance)) else None
    case CallPortal =>
      if pc.Bridging? && pc.portalCalls < MAX_NONCE_RETRY_ATTEMPTS
      then Some(Goto(s, i, Bridging(pc.baseline, pc.portalCalls + 1)))
      else None
    case Bridged(wellFormed, atMs) =>
      if pc.Bridging? && pc.portalCalls > 0 then
        var saving := Saving(Record(|s.store.calls|, pc.baseline, atMs), wellFormed, false);
        Some(Goto(s, i, saving).(store := s.store.(calls := s.store.calls + [Unsaved]),
                                 tally := s.tally.(submitted := s.tally.submitted + 1)))
      else None
    case BridgeThrew => if pc.Bridging? then Some(Failed(s, i)) else None
    case Released => if pc.Releasing? then Some(Goto(s, i, Done).(bridgeInFlight := false)) else None
    case Finally =>
      if pc.Done? then
        Some(s.(bodies := s.bodies[..i] + s.bodies[i + 1..], loop := s.loop.(inFlight := false, draining := false)))
      else None
  }

  /** A process that ends loses what it has not written. */
  function LoseUnsaved(calls: seq<Fate>): seq<Fate> {
    seq(|calls|, k requires 0 <= k < |calls| => if calls[k].Unsaved? then Lost else calls[k])
  }

  function Next(threshold: int, s: State, e: Event): Option<State> {
    match e
    case Tick =>
      if !s.up then None
      else if s.loop.aborted || s.loop.inFlight then Some(s)
      else Some(s.(loop := s.loop.(inFlight := true), bodies := s.bodies + [Reconciling], misread := false))
    case Body(i, action) => if s.up && i < |s.bodies| then BodyStep(threshold, s, i, action) else None
    case Shutdown =>
      if !s.up then None
      else if s.loop.aborted then Some(s)
      else Some(s.(loop := s.loop.(stopping := true, aborted := true, draining := s.loop.inFlight)))
    case CloseDb =>
      if s.up && s.loop.aborted && !s.loop.draining then Some(s.(loop := s.loop.(dbClosed := true))) else None
    case Exit => if s.up then Some(Process(s.store.(calls := LoseUnsaved(s.store.calls)), false)) else None
    case Start => if s.up then None else Some(Process(s.store, true))
    case Corrupt => Some(s.(store := Replace(s.store, Junk, Unreadable), misread := false))
  }

  /** The state after a run of events, if every one of them can happen. */
  function Run(threshold: int, s: State, es: seq<Event>): Option<State>
    decreases |es|
  {
    if es == [] then Some(s)
    else match Next(threshold, s, es[0])
      case None => None
      case Some(s') => Run(threshold, s', es[1..])
  }

  /** No read throws while the store holds a well-formed record. */
  predicate HonestReads(threshold: int, s: State, es: seq<Event>)
    decreases |es|
  {
    es != [] ==>
      && (es[0].Body? && es[0].action.Read? && es[0].action.threw ==> !s.store.entry.Held?)
      && (Next(threshold, s, es[0]).Some? ==> HonestReads(threshold, Next(threshold, s, es[0]).value, es[1..]))
  }
}
