/** The nonce-retry loop around the L1 portal call (services/topup/src/bridge.ts). Error text is already lower-cased. */
module BridgeRetry {
  import opened Outcomes
  import opened Texts

  const MAX_NONCE_RETRY_ATTEMPTS := 3
  const RETRY_BASE_DELAY_MS := 2000

  /** The transaction was mined: a retry would bridge twice. */
  predicate IsNonceTooLow(text: string) {
    Contains(text, "nonce too low")
  }

  predicate IsRetryableNonce(text: string) {
    || Contains(text, "replacementnotallowed")
    || Contains(text, "replacement not allowed")
    || Contains(text, "already known")
  }

  /** Which messages are classified how, letter by letter. */
  lemma ClassifiedExactly(text: string)
    ensures IsNonceTooLow(text) <==> exists before: string, after: string :: text == before + "nonce too low" + after
    ensures IsRetryableNonce(text) <==>
              || (exists before: string, after: string :: text == before + "replacementnotallowed" + after)
              || (exists before: string, after: string :: text == before + "replacement not allowed" + after)
              || (exists before: string, after: string :: text == before + "already known" + after)
  {
    ContainsExactly(text, "nonce too low");
    ContainsExactly(text, "replacementnotallowed");
    ContainsExactly(text, "replacement not allowed");
    ContainsExactly(text, "already known");
  }

  /** What one portal call does; `C` is the claim it returns. */
  datatype PortalCall<C> = Claimed(claim: C) | Rejected(text: string)

  datatype Failure = ZeroAddress | NonPositiveAmount | SetupFailed | NonceTooLow(text: string) | Portal(text: string)

  /** The portal call invites another try. */
  predicate Retries<C>(call: PortalCall<C>) {
    call.Rejected? && !IsNonceTooLow(call.text) && IsRetryableNonce(call.text)
  }

  /** Call `n` is the last of at most `limit` calls. */
  ghost predicate LastCall<C>(portal: nat -> PortalCall<C>, limit: nat, n: nat) {
    && n < limit
    && (forall j: nat | j < n :: Retries(portal(j)))
    && (n + 1 == limit || !Retries(portal(n)))
  }

  function Pow2(k: nat): nat {
    if k == 0 then 1 else 2 * Pow2(k - 1)
  }

  /** What the whole call returns if portal call `n` is the last. */
  function Result<C>(call: PortalCall<C>): Outcomes.Result<C, Failure> {
    match call
    case Claimed(claim) => Ok(claim)
    case Rejected(text) => Err(if IsNonceTooLow(text) then NonceTooLow(text) else Portal(text))
  }

  /** How the whole call ends and after how many portal calls: refused before any, or as the last call says. */
  ghost predicate Concludes<C>(zeroAddress: bool, amount: int, setupFails: bool, limit: nat,
                               portal: nat -> PortalCall<C>, out: Outcomes.Result<C, Failure>, calls: nat)
  {
    if zeroAddress then out == Err(ZeroAddress) && calls == 0
    else if amount <= 0 then out == Err(NonPositiveAmount) && calls == 0
    else if setupFails then out == Err(SetupFailed) && calls == 0
    else calls > 0 && LastCall(portal, limit, calls - 1) && out == Result(portal(calls - 1))
  }

  /**
    Bridges with up to `limit` portal calls, waiting twice as long after every conflict. `calls` counts portal calls.
    The closing "no claim" error of the loop cannot be reached.
  */
  method BridgeFeeJuice<C>(zeroAddress: bool, amount: int, setupFails: bool, limit: nat, portal: nat -> PortalCall<C>)
    returns (out: Outcomes.Result<C, Failure>, calls: nat, waitedMs: nat)
    requires limit >= 1
    ensures calls <= limit && (out.Ok? ==> calls > 0)
    ensures Concludes(zeroAddress, amount, setupFails, limit, portal, out, calls)
    ensures waitedMs == if calls == 0 then 0 else RETRY_BASE_DELAY_MS * (Pow2(calls - 1) - 1)
  {
    calls, waitedMs := 0, 0;
    if zeroAddress {
      return Err(ZeroAddress), calls, waitedMs;
    }
    if amount <= 0 {
      return Err(NonPositiveAmount), calls, waitedMs;
    }
    if setupFails {
      return Err(SetupFailed), calls, waitedMs;
    }
    var claim: Option<C> := None;
    for attempt := 1 to limit + 1
      invariant claim.None? && calls == attempt - 1
      invariant attempt <= limit
      invariant forall j: nat | j < calls :: Retries(portal(j))
      invariant waitedMs == RETRY_BASE_DELAY_MS * (Pow2(calls) - 1)
    {
      var call := portal(calls);
      calls := calls + 1;
      match call
      case Claimed(c) =>
        claim := Some(c);
        break;
      case Rejected(text) =>
        if IsNonceTooLow(text) {
          return Err(NonceTooLow(text)), calls, waitedMs;
        }
        if !IsRetryableNonce(text) || attempt >= limit {
          return Err(Portal(text)), calls, waitedMs;
        }
        waitedMs := waitedMs + RETRY_BASE_DELAY_MS * Pow2(attempt - 1);
    }
    if claim.None? {
      assert false;
    }
    out := Ok(claim.value);
  }

  /**
    The outcome in the words of the portal: every call but the last met one of the three conflicts and no nonce that is
    too low; the last one succeeded, met such a nonce, met no conflict, or was the last allowed.
  */
  lemma ReturnsExactly<C>(zeroAddress: bool, amount: int, setupFails: bool, limit: nat, portal: nat -> PortalCall<C>,
                          out: Outcomes.Result<C, Failure>, calls: nat)
    requires Concludes(zeroAddress, amount, setupFails, limit, portal, out, calls)
    ensures calls == 0 <==> zeroAddress || amount <= 0 || setupFails
    ensures calls == 0 ==>
              out == Err(if zeroAddress then ZeroAddress else if amount <= 0 then NonPositiveAmount else SetupFailed)
    ensures calls <= limit
    ensures forall j: nat | j < calls - 1 ::
              && portal(j).Rejected?
              && !Contains(portal(j).text, "nonce too low")
              && (|| Contains(portal(j).text, "replacementnotallowed")
                  || Contains(portal(j).text, "replacement not allowed")
                  || Contains(portal(j).text, "already known"))
    ensures calls > 0 ==>
              match portal(calls - 1)
              case Claimed(claim) => out == Ok(claim)
              case Rejected(text) =>
                && out == Err(if Contains(text, "nonce too low") then NonceTooLow(text) else Portal(text))
                && (|| calls == limit
                    || Contains(text, "nonce too low")
                    || !(|| Contains(text, "replacementnotallowed")
                         || Contains(text, "replacement not allowed")
                         || Contains(text, "already known")))
  {
  }

  /**
    There is exactly one last call, it is within the limit, and only it can succeed or end in a nonce-too-low error.
  */
  lemma OneLastCall<C>(portal: nat -> PortalCall<C>, limit: nat, m: nat, n: nat)
    requires LastCall(portal, limit, m) && LastCall(portal, limit, n)
    ensures m == n
    ensures forall j: nat | j < n :: portal(j).Rejected? && !IsNonceTooLow(portal(j).text)
  {
    assert m < n ==> Retries(portal(m));
    assert n < m ==> Retries(portal(n));
  }

  /** A message matching both classifiers ends the loop: nonce-too-low wins. */
  lemma NonceTooLowWins<C>(portal: nat -> PortalCall<C>, limit: nat, n: nat,
                           before: string, between: string, after: string)
    requires LastCall(portal, limit, n)
    requires portal(0) == Rejected(before + "nonce too low" + between + "already known" + after)
    ensures n == 0 && Result(portal(n)) == Err(NonceTooLow(portal(0).text))
    ensures IsRetryableNonce(portal(0).text)
  {
    var text := portal(0).text;
    var i := |before|;
    assert OccursAt(text, "nonce too low", i);
    var k := |before| + |"nonce too low"| + |between|;
    assert OccursAt(text, "already known", k);
    assert IsNonceTooLow(text);
    assert n > 0 ==> Retries(portal(0));
  }
}
