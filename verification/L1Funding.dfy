/**
  Minting on L1 until the operator can pay (scripts/services/fund-l1-fee-juice.ts): the send with a managed nonce and
  the mint loop. The chain is a parameter that may fail at every call; the balance grows by mints alone.
*/
module L1Funding {
  import opened Outcomes
  import Division
  import Texts

  const MAX_NONCE_RETRY_ATTEMPTS := 3

  datatype Send = Sent | Failed(text: string)

  /** Here a nonce that is too low is retried, unlike in the bridge call. Error text is already lower-cased. */
  predicate IsNonceConflict(send: Send) {
    send.Failed? && (
      || Texts.Contains(send.text, "replacementnotallowed")
      || Texts.Contains(send.text, "replacement not allowed")
      || Texts.Contains(send.text, "nonce too low")
      || Texts.Contains(send.text, "already known"))
  }

  /** Which failures are conflicts, letter by letter. */
  lemma ConflictsExactly(text: string)
    ensures !IsNonceConflict(Sent)
    ensures IsNonceConflict(Failed(text)) <==>
              || (exists before: string, after: string :: text == before + "replacementnotallowed" + after)
              || (exists before: string, after: string :: text == before + "replacement not allowed" + after)
              || (exists before: string, after: string :: text == before + "nonce too low" + after)
              || (exists before: string, after: string :: text == before + "already known" + after)
  {
    Texts.ContainsExactly(text, "replacementnotallowed");
    Texts.ContainsExactly(text, "replacement not allowed");
    Texts.ContainsExactly(text, "nonce too low");
    Texts.ContainsExactly(text, "already known");
  }

  /**
    What the chain answers: to attempt `a` of mint `k` and to the nonce read before it (`None` where both reads throw),
    whether mint `k` is mined without reverting, and whether the balance read after `k` mints works.
  */
  datatype Chain = Chain(send: (nat, nat) -> Send, nonce: (nat, nat) -> Option<nat>, mined: nat -> bool,
                         balanceReads: nat -> bool)
  {
    function Attempt(k: nat, a: nat): Send {
      send(k, a)
    }

    function PendingNonce(k: nat, a: nat): Option<nat> {
      nonce(k, a)
    }

    predicate Mined(k: nat) {
      mined(k)
    }

    predicate BalanceReads(k: nat) {
      balanceReads(k)
    }
  }

  datatype Fault = NonceReadFailed | SendFailed(text: string) | NonPositiveMint | Reverted | BalanceReadFailed

  /**
    Mint `k` was sent at attempt `a`, after conflicts only, with this nonce: a fresh one after a conflict, else the one
    after the nonce of the mint before.
  */
  predicate SentWith(chain: Chain, k: nat, a: nat, expected: Option<nat>, nonce: nat) {
    && a < 3 && chain.Attempt(k, a).Sent?
    && (forall b: nat | b < a :: IsNonceConflict(chain.Attempt(k, b)))
    && (a == 0 && expected.Some? ==> nonce == expected.value)
    && (a > 0 || expected.None? ==> chain.PendingNonce(k, a) == Some(nonce))
  }

  /** The nonce that follows the one of the mint before. */
  function Expected(nonces: seq<nat>, k: nat): Option<nat>
    requires k <= |nonces|
  {
    if k == 0 then None else Some(nonces[k - 1] + 1)
  }

  /** Mint `k` was sent with `nonces[k]`, at some attempt. */
  ghost predicate SentAt(chain: Chain, nonces: seq<nat>, k: nat)
    requires k < |nonces|
  {
    exists a: nat :: SentWith(chain, k, a, Expected(nonces, k), nonces[k])
  }

  ghost predicate AllSent(chain: Chain, nonces: seq<nat>) {
    forall k: nat | k < |nonces| :: SentAt(chain, nonces, k)
  }

  lemma AllSentGrows(chain: Chain, nonces: seq<nat>, a: nat, nonce: nat)
    requires AllSent(chain, nonces)
    requires SentWith(chain, |nonces|, a, Expected(nonces, |nonces|), nonce)
    ensures AllSent(chain, nonces + [nonce])
  {
    hide SentWith;
    var longer := nonces + [nonce];
    forall k: nat | k < |longer| ensures SentAt(chain, longer, k) {
      if k < |nonces| {
        assert SentAt(chain, nonces, k);
        var b: nat :| SentWith(chain, k, b, Expected(nonces, k), nonces[k]);
        assert SentWith(chain, k, b, Expected(longer, k), longer[k]);
      } else {
        assert SentWith(chain, k, a, Expected(longer, k), longer[k]);
      }
    }
  }

  lemma SentAtOnce(chain: Chain, k: nat, a: nat, expected: Option<nat>, nonce: nat)
    requires SentWith(chain, k, a, expected, nonce) && !IsNonceConflict(chain.Attempt(k, 0))
    ensures a == 0
  {
  }

  /** Without conflicts the mints use one nonce after another. */
  lemma {:induction false} NoncesInARow(chain: Chain, nonces: seq<nat>, k: nat)
    requires AllSent(chain, nonces) && k < |nonces|
    requires forall j: nat | j < |nonces| :: !IsNonceConflict(chain.Attempt(j, 0))
    ensures chain.PendingNonce(0, 0) == Some(nonces[0]) && nonces[k] == nonces[0] + k
  {
    hide IsNonceConflict;
    assert SentAt(chain, nonces, k);
    var a: nat :| SentWith(chain, k, a, Expected(nonces, k), nonces[k]);
    SentAtOnce(chain, k, a, Expected(nonces, k), nonces[k]);
    if k > 0 {
      NoncesInARow(chain, nonces, k - 1);
    }
  }

  /** Attempt `a` of mint `k` is made, or at least prepared: all before it were conflicts. */
  predicate Tries(chain: Chain, k: nat, a: nat) {
    a < 3 && forall b: nat | b < a :: IsNonceConflict(chain.Attempt(k, b))
  }

  /**
    What made mint `k` fail, or the balance read after `k` mints: a nonce that had to be read, the answer to the last
    attempt, or a mint that was sent and reverted. `expected` is the nonce that follows the one of the mint before.
  */
  ghost predicate FailsBy(chain: Chain, k: nat, expected: Option<nat>, error: Fault) {
    match error
    case NonPositiveMint => false
    case BalanceReadFailed => !chain.BalanceReads(k)
    case Reverted => !chain.Mined(k) && exists a: nat :: Tries(chain, k, a) && chain.Attempt(k, a).Sent?
    case NonceReadFailed =>
      exists a: nat :: Tries(chain, k, a) && chain.PendingNonce(k, a).None? && (a == 0 ==> expected.None?)
    case SendFailed(text) =>
      exists a: nat ::
        Tries(chain, k, a) && chain.Attempt(k, a) == Failed(text) && (a == 2 || !IsNonceConflict(Failed(text)))
  }

  /** On a chain that answers, takes the first attempt and mines it, mint `k` has nothing to fail by. */
  lemma HealthyMintWorks(chain: Chain, k: nat, expected: Option<nat>, error: Fault)
    requires chain.BalanceReads(k) && chain.Mined(k) && chain.Attempt(k, 0).Sent?
    requires expected.Some? || chain.PendingNonce(k, 0).Some?
    ensures !FailsBy(chain, k, expected, error)
  {
    assert forall a: nat | Tries(chain, k, a) :: a == 0;
  }

  /**
    Sends mint `k`, with a fresh nonce after each conflict, at most three times. `tried` are the nonces used. The
    closing error of the loop cannot be reached.
  */
  method SendWithManagedNonce(chain: Chain, k: nat, initialNonce: Option<nat>)
    returns (out: Result<nat, Fault>, tried: seq<nat>)
    ensures |tried| <= MAX_NONCE_RETRY_ATTEMPTS
    ensures initialNonce.Some? ==> tried != [] && tried[0] == initialNonce.value
    ensures initialNonce.None? && tried != [] ==> chain.PendingNonce(k, 0) == Some(tried[0])
    ensures forall a: nat | 0 < a < |tried| :: chain.PendingNonce(k, a) == Some(tried[a])
    ensures forall a: nat | a + 1 < |tried| :: IsNonceConflict(chain.Attempt(k, a))
    ensures out.Ok? <==> tried != [] && chain.Attempt(k, |tried| - 1).Sent?
    ensures out.Ok? ==> out.value == tried[|tried| - 1] + 1
    ensures out.Ok? ==> SentWith(chain, k, |tried| - 1, initialNonce, tried[|tried| - 1])
    ensures out.Err? ==> FailsBy(chain, k, initialNonce, out.error)
    ensures out.Err? ==> out.error != Reverted && out.error != BalanceReadFailed
    ensures out == Err(NonceReadFailed) ==>
              && |tried| < MAX_NONCE_RETRY_ATTEMPTS && chain.PendingNonce(k, |tried|).None?
              && (tried != [] ==> IsNonceConflict(chain.Attempt(k, |tried| - 1)))
    ensures out.Err? && out != Err(NonceReadFailed) ==>
              && out.error.SendFailed? && tried != [] && chain.Attempt(k, |tried| - 1) == Failed(out.error.text)
              && (|tried| == MAX_NONCE_RETRY_ATTEMPTS || !IsNonceConflict(chain.Attempt(k, |tried| - 1)))
  {
    hide IsNonceConflict;
    tried := [];
    var nonce;
    if initialNonce.Some? {
      nonce := initialNonce.value;
    } else {
      var read := chain.PendingNonce(k, 0);
      if read.None? {
        return Err(NonceReadFailed), tried;
      }
      nonce := read.value;
    }
    for attempt := 1 to MAX_NONCE_RETRY_ATTEMPTS + 1
      invariant |tried| == attempt - 1 < MAX_NONCE_RETRY_ATTEMPTS
      invariant attempt == 1 ==>
                  nonce == if initialNonce.Some? then initialNonce.value else chain.PendingNonce(k, 0).value
      invariant attempt > 1 ==> chain.PendingNonce(k, attempt - 1) == Some(nonce)
      invariant initialNonce.None? ==> chain.PendingNonce(k, 0).Some?
      invariant tried != [] ==>
                  tried[0] == if initialNonce.Some? then initialNonce.value else chain.PendingNonce(k, 0).value
      invariant forall a: nat | 0 < a < |tried| :: chain.PendingNonce(k, a) == Some(tried[a])
      invariant forall a: nat | a < |tried| :: IsNonceConflict(chain.Attempt(k, a)) && chain.Attempt(k, a).Failed?
    {
      var sent := chain.Attempt(k, attempt - 1);
      tried := tried + [nonce];
      if sent.Sent? {
        return Ok(nonce + 1), tried;
      }
      if !IsNonceConflict(sent) || attempt >= MAX_NONCE_RETRY_ATTEMPTS {
        return Err(SendFailed(sent.text)), tried;
      }
      var refreshed := chain.PendingNonce(k, attempt);
      if refreshed.None? {
        return Err(NonceReadFailed), tried;
      }
      nonce := refreshed.value;
    }
    assert false;
  }

  /** How many mints bring `start` to `target`. */
  function MintsNeeded(start: nat, target: nat, mintAmount: nat): nat
    requires mintAmount > 0
  {
    if target <= start then 0 else Division.CeilDiv(target - start, mintAmount)
  }

  /** That many reach the target, one fewer does not, and the overshoot is less than one mint. */
  lemma MintsNeededIsLeast(start: nat, target: nat, mintAmount: nat, k: nat)
    requires mintAmount > 0
    ensures k < MintsNeeded(start, target, mintAmount) <==> start + k * mintAmount < target
    ensures var n := MintsNeeded(start, target, mintAmount);
            n > 0 ==> target <= start + n * mintAmount < target + mintAmount
  {
    var n: int := MintsNeeded(start, target, mintAmount);
    Division.MulMonotone(0, 0, k, mintAmount);
    if target > start {
      Division.CeilDivIsLeast(target - start, mintAmount, k);
      Division.CeilDivIsLeast(target - start, mintAmount, n);
      Division.CeilDivIsLeast(target - start, mintAmount, n - 1);
      assert (n - 1) * mintAmount == n * mintAmount - mintAmount;
    }
  }

  /**
    Mints until the balance reaches the target. If nothing fails there are exactly as many mints as needed; a failure
    ends the loop at an earlier mint, and is the failure of that mint.
  */
  method MintViaFeeAssetHandler(chain: Chain, mintAmount: int, start: nat, target: nat)
    returns (out: Result<nat, Fault>, mintCount: nat, nonces: seq<nat>)
    ensures |nonces| == mintCount
    ensures mintAmount <= 0 ==> out == Err(NonPositiveMint) && mintCount == 0
    ensures mintAmount > 0 && out.Ok? ==>
              mintCount == MintsNeeded(start, target, mintAmount) && out.value == start + mintCount * mintAmount
    ensures mintAmount > 0 && out.Err? ==>
              && out.error != NonPositiveMint
              && FailsBy(chain, mintCount, Expected(nonces, mintCount), out.error)
              && (mintCount < MintsNeeded(start, target, mintAmount) || !chain.BalanceReads(mintCount))
    ensures mintAmount > 0 ==> mintCount <= MintsNeeded(start, target, mintAmount)
    ensures forall k: nat | k < mintCount :: chain.BalanceReads(k) && chain.Mined(k)
    ensures out.Ok? ==> chain.BalanceReads(mintCount)
    ensures AllSent(chain, nonces)
  {
    mintCount, nonces := 0, [];
    if mintAmount <= 0 {
      return Err(NonPositiveMint), mintCount, nonces;
    }
    if !chain.BalanceReads(0) {
      return Err(BalanceReadFailed), mintCount, nonces;
    }
    var balance := start;
    var nextNonce: Option<nat> := None;
    MintsNeededIsLeast(start, target, mintAmount, 0);
    while balance < target
      invariant balance == start + mintCount * mintAmount
      invariant mintCount <= MintsNeeded(start, target, mintAmount)
      invariant balance < target <==> mintCount < MintsNeeded(start, target, mintAmount)
      invariant forall k: nat | k < mintCount :: chain.BalanceReads(k) && chain.Mined(k)
      invariant chain.BalanceReads(mintCount)
      invariant |nonces| == mintCount && (mintCount == 0 <==> nextNonce.None?)
      invariant AllSent(chain, nonces)
      invariant mintCount > 0 ==> nextNonce == Some(nonces[mintCount - 1] + 1)
      decreases MintsNeeded(start, target, mintAmount) - mintCount
    {
      hide MintsNeeded, IsNonceConflict, AllSent, SentWith;
      var sent, tried := SendWithManagedNonce(chain, mintCount, nextNonce);
      if sent.Err? {
        return Err(sent.error), mintCount, nonces;
      }
      nextNonce := Some(sent.value);
      if !chain.Mined(mintCount) {
        return Err(Reverted), mintCount, nonces;
      }
      AllSentGrows(chain, nonces, |tried| - 1, tried[|tried| - 1]);
      nonces := nonces + [tried[|tried| - 1]];
      mintCount := mintCount + 1;
      assert mintCount * mintAmount == (mintCount - 1) * mintAmount + mintAmount;
      if !chain.BalanceReads(mintCount) {
        return Err(BalanceReadFailed), mintCount, nonces;
      }
      balance := balance + mintAmount;
      MintsNeededIsLeast(start, target, mintAmount, mintCount);
    }
    out := Ok(balance);
  }
}
