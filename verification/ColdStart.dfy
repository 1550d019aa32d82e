/**
  Sending a cold-start transaction (sdk/src/payment-method.ts): the wait for its receipt and the retries around proving,
  sending and waiting. The node and the clock are parameters; a sleep takes at least the time requested.
*/
module ColdStart {
  import opened Division
  import opened Outcomes
  import opened Texts

  const COLD_START_MAX_ATTEMPTS := 3
  const TX_MINE_POLL_MS := 2000
  const STALE_ANCHOR := "Message not in state"

  datatype Receipt = Receipt(mined: bool, dropped: bool, reverted: bool, result: string, error: string)

  /** What poll `k` answers or the message it throws, how long it takes, and how much longer its sleep takes. */
  datatype Node = Node(receipts: nat -> Result<Receipt, string>, bodies: nat -> nat, delays: nat -> nat) {
    function Poll(k: nat): Result<Receipt, string> {
      receipts(k)
    }

    function BodyMs(k: nat): nat {
      bodies(k)
    }

    function LateMs(k: nat): nat {
      delays(k)
    }
  }

  /** How a round fails; `Thrown` is any error of the wallet or the node. */
  datatype Fault =
    | Dropped(error: string)
    | TimedOut
    | Reverted(result: string, error: string)
    | Thrown(text: string)

  /** The message of the error thrown. */
  function Message(fault: Fault): string {
    match fault
    case Dropped(error) => "Tx dropped: error=" + error
    case TimedOut => "Tx timed out waiting for block inclusion"
    case Reverted(result, error) => "Tx reverted: executionResult=" + (result + (" error=" + error))
    case Thrown(text) => text
  }

  /** Time passed at the loop guard before poll `k`. */
  function Passed(node: Node, k: nat): nat {
    if k == 0 then 0 else Passed(node, k - 1) + node.BodyMs(k - 1) + TX_MINE_POLL_MS + node.LateMs(k - 1)
  }

  predicate Pending(answer: Result<Receipt, string>) {
    answer.Ok? && !answer.value.mined && !answer.value.dropped
  }

  /** Polls before `n` are made in time and all answer that the transaction is pending. */
  ghost predicate PendingBefore(node: Node, timeoutMs: int, n: nat) {
    forall k: nat | k < n :: Passed(node, k) < timeoutMs && Pending(node.Poll(k))
  }

  /** What the wait ends with if the deadline passes before poll `n`, or else by that poll's answer. */
  function Conclusion(node: Node, timeoutMs: int, n: nat): Result<Receipt, Fault> {
    if Passed(node, n) >= timeoutMs then Err(TimedOut)
    else match node.Poll(n)
      case Err(text) => Err(Thrown(text))
      case Ok(r) =>
        if r.mined then (if r.reverted then Err(Reverted(r.result, r.error)) else Ok(r))
        else Err(Dropped(r.error))
  }

  /** The wait is over at `n`. */
  predicate Over(node: Node, timeoutMs: int, n: nat) {
    Passed(node, n) >= timeoutMs || !Pending(node.Poll(n))
  }

  /** The wait ends at `n` with this. */
  ghost predicate EndsAt(node: Node, timeoutMs: int, n: nat, out: Result<Receipt, Fault>) {
    PendingBefore(node, timeoutMs, n) && Over(node, timeoutMs, n) && out == Conclusion(node, timeoutMs, n)
  }

  ghost predicate WaitEnds(node: Node, timeoutMs: int, out: Result<Receipt, Fault>) {
    exists n: nat :: EndsAt(node, timeoutMs, n, out)
  }

  lemma {:induction false} PollsTakeTime(node: Node, k: nat)
    ensures Passed(node, k) >= k * TX_MINE_POLL_MS
  {
    if k > 0 {
      PollsTakeTime(node, k - 1);
    }
  }

  /** The wait for a receipt: it ends as the first poll that is late or not pending says, after boundedly many polls. */
  method WaitForTx(node: Node, timeoutMs: int) returns (out: Result<Receipt, Fault>, polls: nat)
    ensures WaitEnds(node, timeoutMs, out)
    ensures polls <= if timeoutMs > 0 then CeilDiv(timeoutMs, TX_MINE_POLL_MS) else 0
  {
    hide CeilDiv;
    var receipt: Option<Receipt> := None;
    var passed := 0;
    polls := 0;
    while passed < timeoutMs
      invariant passed == Passed(node, polls)
      invariant PendingBefore(node, timeoutMs, polls)
      invariant polls > 0 ==> receipt.Some? && !receipt.value.mined && timeoutMs > 0
      invariant polls == 0 ==> receipt.None?
      invariant polls > 0 ==> polls <= CeilDiv(timeoutMs, TX_MINE_POLL_MS)
      decreases timeoutMs - passed
    {
      PollsTakeTime(node, polls);
      CeilDivIsLeast(timeoutMs, TX_MINE_POLL_MS, polls);
      var answer := node.Poll(polls);
      polls := polls + 1;
      if answer.Err? {
        assert EndsAt(node, timeoutMs, polls - 1, Err(Thrown(answer.error)));
        return Err(Thrown(answer.error)), polls;
      }
      receipt := Some(answer.value);
      if receipt.value.mined {
        break;
      }
      if receipt.value.dropped {
        assert EndsAt(node, timeoutMs, polls - 1, Err(Dropped(receipt.value.error)));
        return Err(Dropped(receipt.value.error)), polls;
      }
      passed := passed + node.BodyMs(polls - 1) + TX_MINE_POLL_MS + node.LateMs(polls - 1);
    }
    if receipt.None? || !receipt.value.mined {
      assert EndsAt(node, timeoutMs, polls, Err(TimedOut));
      return Err(TimedOut), polls;
    }
    var r := receipt.value;
    out := if r.reverted then Err(Reverted(r.result, r.error)) else Ok(r);
    assert EndsAt(node, timeoutMs, polls - 1, out);
  }

  /** Poll `n` is in time and sees the transaction mined, and all polls before saw it pending. */
  ghost predicate SeenMined(node: Node, timeoutMs: int, n: nat, r: Receipt) {
    PendingBefore(node, timeoutMs, n) && Passed(node, n) < timeoutMs && node.Poll(n) == Ok(r) && r.mined
  }

  /** A receipt is returned exactly if some poll sees the transaction mined, in time and not reverted. */
  lemma MinedExactlyWhen(node: Node, timeoutMs: int, out: Result<Receipt, Fault>, r: Receipt)
    requires WaitEnds(node, timeoutMs, out)
    ensures out == Ok(r) <==> !r.reverted && exists n: nat :: SeenMined(node, timeoutMs, n, r)
  {
    var n: nat :| EndsAt(node, timeoutMs, n, out);
    assert out == Ok(r) ==> SeenMined(node, timeoutMs, n, r);
    if m: nat :| SeenMined(node, timeoutMs, m, r) {
      assert n < m ==> Pending(node.Poll(n)) && Passed(node, n) < timeoutMs;
      assert m < n ==> Pending(node.Poll(m));
    }
  }

  /** Poll `n` is made in time, after polls in time that all saw the transaction pending; `at` are the times passed. */
  predicate PollMade(node: Node, timeoutMs: int, at: seq<int>, n: nat)
    requires n < |at|
  {
    && at[n] < timeoutMs
    && forall k: nat | k < n ::
         at[k] < timeoutMs && node.Poll(k).Ok? && !node.Poll(k).value.mined && !node.Poll(k).value.dropped
  }

  /** The time passed before each poll: the polls before it, and at least two seconds after each. */
  predicate Elapses(node: Node, at: seq<int>) {
    && |at| > 0 && at[0] == 0
    && forall k | 0 < k < |at| :: at[k] == at[k - 1] + node.bodies(k - 1) + 2000 + node.delays(k - 1)
  }

  lemma {:induction false} PassedElapses(node: Node, at: seq<int>, k: nat)
    requires Elapses(node, at) && k < |at|
    ensures Passed(node, k) == at[k]
  {
    if k > 0 {
      PassedElapses(node, at, k - 1);
    }
  }

  lemma PendingIsMade(node: Node, timeoutMs: int, at: seq<int>, n: nat)
    requires Elapses(node, at) && n < |at|
    ensures PendingBefore(node, timeoutMs, n) && Passed(node, n) < timeoutMs <==> PollMade(node, timeoutMs, at, n)
  {
    forall k: nat | k <= n ensures Passed(node, k) == at[k] {
      PassedElapses(node, at, k);
    }
    hide Elapses, Passed;
  }

  /**
    Exactly how the wait ends, by what poll `n` sees: it throws, or the transaction is mined, reverted or not, or
    dropped.
  */
  lemma WaitEndsExactlyAs(node: Node, timeoutMs: int, out: Result<Receipt, Fault>, at: seq<int>, n: nat)
    requires WaitEnds(node, timeoutMs, out) && Elapses(node, at) && n < |at| && PollMade(node, timeoutMs, at, n)
    ensures match node.Poll(n)
            case Err(text) => out == Err(Thrown(text))
            case Ok(r) =>
              if r.mined then out == if r.reverted then Err(Reverted(r.result, r.error)) else Ok(r)
              else r.dropped ==> out == Err(Dropped(r.error))
  {
    PendingIsMade(node, timeoutMs, at, n);
    if Over(node, timeoutMs, n) {
      assert EndsAt(node, timeoutMs, n, Conclusion(node, timeoutMs, n));
      WaitEndsOnce(node, timeoutMs, out, Conclusion(node, timeoutMs, n));
    }
    hide PollMade, Elapses, Passed;
  }

  /** The wait times out exactly where every poll in time sees the transaction pending. */
  lemma TimesOutExactlyWhen(node: Node, timeoutMs: int, out: Result<Receipt, Fault>, at: seq<int>, n: nat)
    requires WaitEnds(node, timeoutMs, out) && Elapses(node, at) && n < |at| && at[n] >= timeoutMs
    ensures out == Err(TimedOut) <==>
              forall k: nat | k < n && at[k] < timeoutMs ::
                node.Poll(k).Ok? && !node.Poll(k).value.mined && !node.Poll(k).value.dropped
  {
    forall k: nat | k <= n ensures Passed(node, k) == at[k] {
      PassedElapses(node, at, k);
    }
    var m: nat :| EndsAt(node, timeoutMs, m, out);
    hide Elapses, Passed, Contains;
    if Passed(node, m) >= timeoutMs {
      forall k: nat | k < n && at[k] < timeoutMs ensures Pending(node.Poll(k)) {
        if m <= k {
          PassedGrows(node, m, k);
        }
      }
    } else {
      if n <= m {
        PassedGrows(node, n, m);
      }
      assert at[m] < timeoutMs && !Pending(node.Poll(m));
    }
  }

  lemma {:induction false} PassedGrows(node: Node, m: nat, n: nat)
    requires m <= n
    ensures Passed(node, m) <= Passed(node, n)
    decreases n
  {
    if m < n {
      PassedGrows(node, m, n - 1);
    }
  }

  /** A wait has one end. */
  lemma WaitEndsOnce(node: Node, timeoutMs: int, out: Result<Receipt, Fault>, other: Result<Receipt, Fault>)
    requires WaitEnds(node, timeoutMs, out) && WaitEnds(node, timeoutMs, other)
    ensures out == other
  {
    var n: nat :| EndsAt(node, timeoutMs, n, out);
    var m: nat :| EndsAt(node, timeoutMs, m, other);
    assert n < m ==> Pending(node.Poll(n)) && Passed(node, n) < timeoutMs;
    assert m < n ==> Pending(node.Poll(m)) && Passed(node, m) < timeoutMs;
  }

  // -------- retries

  /** One round: an error up to and including the send, or a wait for the transaction that was sent. */
  datatype Round = Unsent(text: string) | Sent(node: Node)

  datatype Rounds = Rounds(rounds: nat -> Round) {
    function At(k: nat): Round {
      rounds(k)
    }
  }

  ghost predicate RoundEnds(round: Round, timeoutMs: int, out: Result<Receipt, Fault>) {
    match round
    case Unsent(text) => out == Err(Thrown(text))
    case Sent(node) => WaitEnds(node, timeoutMs, out)
  }

  method ProveAndSendTx(round: Round, timeoutMs: int) returns (out: Result<Receipt, Fault>)
    ensures RoundEnds(round, timeoutMs, out)
  {
    match round
    case Unsent(text) => out := Err(Thrown(text));
    case Sent(node) =>
      var ended, _ := WaitForTx(node, timeoutMs);
      out := ended;
  }

  /** The retry condition: the thrown message contains the marker. */
  predicate StaleAnchor(out: Result<Receipt, Fault>) {
    out.Err? && Contains(Message(out.error), STALE_ANCHOR)
  }

  /** The same in terms of what the wallet and the node said. */
  predicate NamesMarker(out: Result<Receipt, Fault>) {
    out.Err? &&
    match out.error
    case Dropped(error) => Contains(error, "Message not in state")
    case TimedOut => false
    case Reverted(result, error) => Contains(result, "Message not in state") || Contains(error, "Message not in state")
    case Thrown(text) => Contains(text, "Message not in state")
  }

  /** A text without an `M` in front of another contains the marker exactly where the other does. */
  lemma MarkerIsInTheRest(front: string, rest: string)
    requires 'M' !in front
    ensures Contains(front + rest, STALE_ANCHOR) <==> Contains(rest, STALE_ANCHOR)
  {
    var text := front + rest;
    if i :| 0 <= i <= |text| && OccursAt(text, STALE_ANCHOR, i) {
      assert text[i] == text[i..i + |STALE_ANCHOR|][0];
      OccursInParts(front, rest, i);
    }
    if j :| 0 <= j <= |rest| && OccursAt(rest, STALE_ANCHOR, j) {
      OccursInParts(front, rest, j + |front|);
    }
  }

  /** No blank of the marker is followed by an `e`, and it does not end in a blank. */
  lemma MarkerBlanks(k: nat)
    requires k < |STALE_ANCHOR| && STALE_ANCHOR[k] == ' '
    ensures k + 1 < |STALE_ANCHOR| && STALE_ANCHOR[k + 1] != 'e'
  {
    assert |STALE_ANCHOR| == 20;
    assert k == 7 || k == 11 || k == 14;
  }

  /** So no occurrence of the marker straddles the start of ` error=`. */
  lemma NoStraddling(result: string, error: string, i: nat)
    requires i < |result| < i + |STALE_ANCHOR|
    ensures !OccursAt(result + (" error=" + error), STALE_ANCHOR, i)
  {
    var text, k := result + (" error=" + error), |result| - i;
    assert text[|result|] == ' ' && text[|result| + 1] == 'e';
    if STALE_ANCHOR[k] == ' ' {
      MarkerBlanks(k);
    }
    if i + |STALE_ANCHOR| <= |text| {
      var part := text[i..i + |STALE_ANCHOR|];
      assert part[k] == ' ' && (k + 1 < |part| ==> part[k + 1] == 'e');
      assert part[k] != STALE_ANCHOR[k] || part[k + 1] != STALE_ANCHOR[k + 1];
    }
  }

  /**
    An occurrence of the marker in a part is one in the whole, and one in the whole that does not straddle is in a part.
  */
  lemma OccursInParts(front: string, rest: string, i: nat)
    ensures i + |STALE_ANCHOR| <= |front| ==>
              (OccursAt(front + rest, STALE_ANCHOR, i) <==> OccursAt(front, STALE_ANCHOR, i))
    ensures i >= |front| ==>
              (OccursAt(front + rest, STALE_ANCHOR, i) <==> OccursAt(rest, STALE_ANCHOR, i - |front|))
  {
    var text, n := front + rest, |STALE_ANCHOR|;
    if i + n <= |front| {
      assert text[i..i + n] == front[i..i + n];
    } else if |front| <= i && i + n <= |text| {
      assert text[i..i + n] == rest[i - |front|..i - |front| + n];
    }
  }

  lemma MarkerInReverted(result: string, error: string)
    ensures Contains(result + (" error=" + error), STALE_ANCHOR) <==>
              Contains(result, STALE_ANCHOR) || Contains(error, STALE_ANCHOR)
  {
    assert 'M' !in " error=";
    MarkerIsInTheRest(" error=", error);
    var tail := " error=" + error;
    var text := result + tail;
    hide OccursAt;
    if i :| 0 <= i <= |text| && OccursAt(text, STALE_ANCHOR, i) {
      OccursInParts(result, tail, i);
      if i < |result| < i + |STALE_ANCHOR| {
        NoStraddling(result, error, i);
      }
    }
    if j :| 0 <= j <= |result| && OccursAt(result, STALE_ANCHOR, j) {
      OccurrenceFits(result, j);
      OccursInParts(result, tail, j);
    }
    if j :| 0 <= j <= |tail| && OccursAt(tail, STALE_ANCHOR, j) {
      OccursInParts(result, tail, j + |result|);
    }
  }

  lemma OccurrenceFits(text: string, i: nat)
    requires OccursAt(text, STALE_ANCHOR, i)
    ensures i + |STALE_ANCHOR| <= |text|
  {
  }

  lemma TimeoutNamesNothing()
    ensures !Contains(Message(TimedOut), STALE_ANCHOR)
  {
    var text := Message(TimedOut);
    assert 'M' !in text;
    assert text + "" == text;
    MarkerIsInTheRest(text, "");
    assert forall i | 0 <= i <= 0 :: !OccursAt("", STALE_ANCHOR, i);
  }

  /**
    Every failure invites another round exactly where a text of the wallet or the node names the marker; the words the
    client itself adds never do. In particular a transaction whose wait timed out is not sent again.
  */
  lemma SentAgainExactlyWhen(out: Result<Receipt, Fault>)
    ensures StaleAnchor(out) <==> NamesMarker(out)
  {
    if out.Err? {
      match out.error
      case TimedOut => TimeoutNamesNothing();
      case Dropped(error) =>
        assert 'M' !in "Tx dropped: error=";
        MarkerIsInTheRest("Tx dropped: error=", error);
      case Reverted(result, error) =>
        assert 'M' !in "Tx reverted: executionResult=";
        MarkerIsInTheRest("Tx reverted: executionResult=", result + (" error=" + error));
        MarkerInReverted(result, error);
      case Thrown(_) =>
    }
  }

  /**
    At most three rounds; a round is followed by another exactly if it is not the third and its failure names the
    marker. `outs` are the ends of the rounds made, the last of which is returned.
  */
  method SendWithRetries(rounds: Rounds, timeoutMs: int)
    returns (out: Result<Receipt, Fault>, made: nat, outs: seq<Result<Receipt, Fault>>)
    ensures 1 <= made == |outs| <= 3 && out == outs[made - 1]
    ensures forall k: nat | k < made :: RoundEnds(rounds.At(k), timeoutMs, outs[k])
    ensures forall k: nat | k < made :: k + 1 < made <==> k + 1 < 3 && NamesMarker(outs[k])
  {
    hide NamesMarker, RoundEnds, Message, Contains;
    made, outs := 0, [];
    for attempt := 1 to COLD_START_MAX_ATTEMPTS + 1
      invariant made == |outs| == attempt - 1 < COLD_START_MAX_ATTEMPTS
      invariant forall k: nat | k < made :: RoundEnds(rounds.At(k), timeoutMs, outs[k]) && NamesMarker(outs[k])
    {
      out := ProveAndSendTx(rounds.At(made), timeoutMs);
      made, outs := made + 1, outs + [out];
      SentAgainExactlyWhen(out);
      if out.Ok? {
        return;
      }
      if StaleAnchor(out) && attempt < COLD_START_MAX_ATTEMPTS {
        continue;
      }
      return;
    }
    assert false;
  }

  /** A transaction seen mined is sent again exactly if it reverted and the node's result or error names the marker. */
  lemma MinedIsSentAgainExactlyWhen(node: Node, timeoutMs: int, out: Result<Receipt, Fault>, n: nat, r: Receipt)
    requires WaitEnds(node, timeoutMs, out) && SeenMined(node, timeoutMs, n, r)
    ensures NamesMarker(out) <==> r.reverted && (Contains(r.result, STALE_ANCHOR) || Contains(r.error, STALE_ANCHOR))
  {
    assert EndsAt(node, timeoutMs, n, Conclusion(node, timeoutMs, n));
    WaitEndsOnce(node, timeoutMs, out, Conclusion(node, timeoutMs, n));
  }

  /** A node that reports the transaction mined but reverted, with an error that names the marker. */
  function RevertingNode(): Node {
    Node(_ => Ok(Receipt(true, false, true, "app_logic_reverted", STALE_ANCHOR)), _ => 0, _ => 0)
  }

  /** Such a mined transaction is sent again. */
  lemma MinedTransactionSentAgain(timeoutMs: nat, out: Result<Receipt, Fault>)
    requires timeoutMs > 0 && WaitEnds(RevertingNode(), timeoutMs, out)
    ensures out == Err(Reverted("app_logic_reverted", STALE_ANCHOR)) && StaleAnchor(out)
  {
    var node := RevertingNode();
    assert EndsAt(node, timeoutMs, 0, Conclusion(node, timeoutMs, 0));
    WaitEndsOnce(node, timeoutMs, out, Conclusion(node, timeoutMs, 0));
    assert OccursAt(STALE_ANCHOR, STALE_ANCHOR, 0);
    SentAgainExactlyWhen(out);
  }
}
