/**
  What a quote signature covers (services/attestation/src/signer.ts) and what the contract checks before it pays
  (contracts/fpc/src/main.nr). The hash and the signature scheme are parameters.
*/
module Quotes {
  import opened Addresses
  import opened Outcomes
  import opened Wire
  import Division
  import Pricing

  const QUOTE_DOMAIN_SEPARATOR: Field := 0x465043
  const COLD_START_QUOTE_DOMAIN_SEPARATOR: Field := 0x46504373
  const MAX_QUOTE_TTL_SECONDS: nat := 3600
  const U64_MAX: nat := 0xFFFF_FFFF_FFFF_FFFF

  datatype Quote = Quote(fpc: Field, asset: Field, fj: nat, aa: nat, validUntil: nat, user: Field)
  datatype RateQuote = RateQuote(fpc: Field, asset: Field, rateNum: nat, rateDen: nat, validUntil: nat, user: Field)
  datatype ColdStartQuote = ColdStartQuote(quote: Quote, claimAmount: nat, claimSecretHash: Field)

  /** The list that is hashed and signed; `None` where a number is no field element and building the list throws. */
  function QuotePreimage(q: Quote): Option<seq<Field>> {
    if q.fj < MODULUS && q.aa < MODULUS && q.validUntil < MODULUS then
      Some([QUOTE_DOMAIN_SEPARATOR, q.fpc, q.asset, q.fj, q.aa, q.validUntil, q.user])
    else None
  }

  function RateQuotePreimage(q: RateQuote): Option<seq<Field>> {
    if q.rateNum < MODULUS && q.rateDen < MODULUS && q.validUntil < MODULUS then
      Some([QUOTE_DOMAIN_SEPARATOR, q.fpc, q.asset, q.rateNum, q.rateDen, q.validUntil, q.user])
    else None
  }

  function ColdStartQuotePreimage(c: ColdStartQuote): Option<seq<Field>> {
    var q := c.quote;
    if q.fj < MODULUS && q.aa < MODULUS && q.validUntil < MODULUS && c.claimAmount < MODULUS then
      Some([COLD_START_QUOTE_DOMAIN_SEPARATOR, q.fpc, q.asset, q.fj, q.aa, q.validUntil, q.user, c.claimAmount,
            c.claimSecretHash])
    else None
  }

  /** A preimage names one quote. */
  lemma QuotePreimageInjective(p: Quote, q: Quote)
    requires QuotePreimage(p).Some? && QuotePreimage(p) == QuotePreimage(q)
    ensures p == q
  {
    var s, t := QuotePreimage(p).value, QuotePreimage(q).value;
    assert forall i | 0 <= i < 7 :: s[i] == t[i];
    assert s[1] == p.fpc && s[2] == p.asset && s[3] == p.fj && s[4] == p.aa && s[5] == p.validUntil && s[6] == p.user;
    assert t[1] == q.fpc && t[2] == q.asset && t[3] == q.fj && t[4] == q.aa && t[5] == q.validUntil && t[6] == q.user;
  }

  lemma ColdStartPreimageInjective(p: ColdStartQuote, q: ColdStartQuote)
    requires ColdStartQuotePreimage(p).Some? && ColdStartQuotePreimage(p) == ColdStartQuotePreimage(q)
    ensures p == q
  {
    var s, t := ColdStartQuotePreimage(p).value, ColdStartQuotePreimage(q).value;
    var a, b := p.quote, q.quote;
    assert s[1] == a.fpc && s[2] == a.asset && s[3] == a.fj && s[4] == a.aa && s[5] == a.validUntil && s[6] == a.user;
    assert t[1] == b.fpc && t[2] == b.asset && t[3] == b.fj && t[4] == b.aa && t[5] == b.validUntil && t[6] == b.user;
    assert s[7] == p.claimAmount && t[7] == q.claimAmount && s[8] == p.claimSecretHash && t[8] == q.claimSecretHash;
  }

  /** A cold-start preimage is never one of the other two. */
  lemma ColdStartIsSeparate(c: ColdStartQuote, q: Quote, r: RateQuote)
    requires ColdStartQuotePreimage(c).Some?
    ensures ColdStartQuotePreimage(c) != QuotePreimage(q) && ColdStartQuotePreimage(c) != RateQuotePreimage(r)
  {
    assert ColdStartQuotePreimage(c).value[0] == COLD_START_QUOTE_DOMAIN_SEPARATOR;
    assert QuotePreimage(q).Some? ==> QuotePreimage(q).value[0] == QUOTE_DOMAIN_SEPARATOR;
    assert RateQuotePreimage(r).Some? ==> RateQuotePreimage(r).value[0] == QUOTE_DOMAIN_SEPARATOR;
  }

  /** Rate and amount quotes share a separator: their preimages are equal exactly when the rate reads as the amounts. */
  lemma RateReadsAsAmounts(r: RateQuote, q: Quote)
    requires RateQuotePreimage(r).Some?
    ensures RateQuotePreimage(r) == QuotePreimage(q) <==>
              q == Quote(r.fpc, r.asset, r.rateNum, r.rateDen, r.validUntil, r.user)
  {
    var read := Quote(r.fpc, r.asset, r.rateNum, r.rateDen, r.validUntil, r.user);
    assert QuotePreimage(read) == RateQuotePreimage(r);
    if QuotePreimage(read) == QuotePreimage(q) {
      QuotePreimageInjective(read, q);
    }
  }

  // -------- hash and signature

  datatype Scheme = Scheme(hash: seq<Field> -> Field, sign: Field -> Option<seq<Byte>>,
                           verify: (Field, seq<Byte>) -> bool)
  {
    function Hash(preimage: seq<Field>): Field {
      hash(preimage)
    }

    /** The operator's signature on a hash; `None` where signing throws. */
    function Sign(h: Field): Option<seq<Byte>> {
      sign(h)
    }

    predicate Verifies(h: Field, sig: seq<Byte>) {
      verify(h, sig)
    }

    predicate SignsWell(h: Field) {
      Sign(h).Some? ==> |Sign(h).value| == 64 && Verifies(h, Sign(h).value)
    }

    /** Signatures are 64 bytes long and verify. */
    ghost predicate Sound() {
      forall h: Field :: SignsWell(h)
    }

    /** No collision between the two preimages, and no signature on the first that verifies for the second. */
    predicate Binds(s: seq<Field>, t: seq<Field>) {
      && (Hash(s) == Hash(t) ==> s == t)
      && (Sign(Hash(s)).Some? && Verifies(Hash(t), Sign(Hash(s)).value) ==> Hash(s) == Hash(t))
    }
  }

  // -------- the contract

  /** The arguments of `fee_entrypoint`. */
  datatype FeeCall = FeeCall(asset: Field, nonce: Field, fj: nat, aa: nat, validUntil: nat, sig: seq<Byte>)

  /** The arguments of `cold_start_entrypoint` that its checks read. */
  datatype ColdStartCall = ColdStartCall(user: Field, asset: Field, claimAmount: nat, claimSecretHash: Field,
                                         fj: nat, aa: nat, validUntil: nat, sig: seq<Byte>)

  /** Numbers and signature fit the argument types. */
  predicate Fits(fj: nat, aa: nat, validUntil: nat, sig: seq<Byte>) {
    fj <= Pricing.U128_MAX && aa <= Pricing.U128_MAX && validUntil <= U64_MAX && |sig| == 64
  }

  predicate InWindow(anchor: nat, validUntil: nat) {
    anchor <= validUntil && validUntil - anchor <= MAX_QUOTE_TTL_SECONDS
  }

  /** Gas limits and fees, as the client sets them and the contract reads them. */
  datatype Gas = Gas(daLimit: nat, l2Limit: nat, daFee: nat, l2Fee: nat)

  /** The client's amount: unbounded. */
  function ComputeFjAmount(gas: Gas): nat {
    gas.daLimit * gas.daFee + gas.l2Limit * gas.l2Fee
  }

  /** The contract's amount: 128-bit products and sum, `None` where one overflows. */
  function MaxGasCost(gas: Gas): Option<nat> {
    var da, l2 := gas.daFee * gas.daLimit, gas.l2Fee * gas.l2Limit;
    if da > Pricing.U128_MAX || l2 > Pricing.U128_MAX || da + l2 > Pricing.U128_MAX then None else Some(da + l2)
  }

  /** Client and contract compute the same fee, limits times prices, wherever the fee fits in 128 bits at all. */
  lemma GasAmountsAgree(gas: Gas)
    ensures ComputeFjAmount(gas) == gas.daLimit * gas.daFee + gas.l2Limit * gas.l2Fee
    ensures ComputeFjAmount(gas) < 0x1_0000_0000_0000_0000_0000_0000_0000_0000 ==>
              MaxGasCost(gas) == Some(ComputeFjAmount(gas))
    ensures ComputeFjAmount(gas) >= 0x1_0000_0000_0000_0000_0000_0000_0000_0000 ==> MaxGasCost(gas) == None
  {
    var da, l2 := gas.daFee * gas.daLimit, gas.l2Fee * gas.l2Limit;
    Division.MulMonotone(0, 0, gas.daFee, gas.daLimit);
    Division.MulMonotone(0, 0, gas.l2Fee, gas.l2Limit);
    assert ComputeFjAmount(gas) == da + l2;
  }

  /** The preimage the contract rebuilds from its arguments and the sender. */
  function FeePreimage(fpc: Field, sender: Field, call: FeeCall): seq<Field>
    requires Fits(call.fj, call.aa, call.validUntil, call.sig)
  {
    [QUOTE_DOMAIN_SEPARATOR, fpc, call.asset, call.fj, call.aa, call.validUntil, sender]
  }

  function ColdStartPreimage(fpc: Field, call: ColdStartCall): seq<Field>
    requires Fits(call.fj, call.aa, call.validUntil, call.sig) && call.claimAmount <= Pricing.U128_MAX
  {
    [COLD_START_QUOTE_DOMAIN_SEPARATOR, fpc, call.asset, call.fj, call.aa, call.validUntil, call.user,
     call.claimAmount, call.claimSecretHash]
  }

  /** The checks of `fee_entrypoint` on a quote: signature, time window, fee. */
  predicate FeeEntrypointAccepts(scheme: Scheme, fpc: Field, sender: Field, call: FeeCall, gas: Gas, anchor: nat) {
    && Fits(call.fj, call.aa, call.validUntil, call.sig)
    && scheme.Verifies(scheme.Hash(FeePreimage(fpc, sender, call)), call.sig)
    && InWindow(anchor, call.validUntil)
    && MaxGasCost(gas) == Some(call.fj)
  }

  predicate ColdStartEntrypointAccepts(scheme: Scheme, fpc: Field, call: ColdStartCall, gas: Gas, anchor: nat) {
    && Fits(call.fj, call.aa, call.validUntil, call.sig) && call.claimAmount <= Pricing.U128_MAX
    && call.claimAmount >= call.aa
    && scheme.Verifies(scheme.Hash(ColdStartPreimage(fpc, call)), call.sig)
    && InWindow(anchor, call.validUntil)
    && MaxGasCost(gas) == Some(call.fj)
  }

  /** The contract's list is the operator's list of the quote the arguments describe. */
  lemma ContractRebuilds(fpc: Field, sender: Field, call: FeeCall)
    requires Fits(call.fj, call.aa, call.validUntil, call.sig)
    ensures QuotePreimage(Quote(fpc, call.asset, call.fj, call.aa, call.validUntil, sender)) ==
            Some(FeePreimage(fpc, sender, call))
  {
  }

  /**
    A call carrying the signature on `signed` passes exactly in the time window, at the fee quoted, where `signed` is
    rebuilt.
  */
  lemma SignedCallPasses(scheme: Scheme, signed: seq<Field>, fpc: Field, sender: Field, call: FeeCall, gas: Gas,
                         anchor: nat)
    requires scheme.Sound() && scheme.Sign(scheme.Hash(signed)) == Some(call.sig)
    requires Fits(call.fj, call.aa, call.validUntil, call.sig)
    ensures signed == FeePreimage(fpc, sender, call) || scheme.Binds(signed, FeePreimage(fpc, sender, call)) ==>
              (FeeEntrypointAccepts(scheme, fpc, sender, call, gas, anchor) <==>
                 && InWindow(anchor, call.validUntil) && MaxGasCost(gas) == Some(call.fj)
                 && signed == FeePreimage(fpc, sender, call))
  {
    assert scheme.SignsWell(scheme.Hash(signed));
    hide FeePreimage, MaxGasCost, InWindow;
  }

  /** So does a cold-start call, and only with a claim that covers the payment. */
  lemma SignedColdStartPasses(scheme: Scheme, signed: seq<Field>, fpc: Field, call: ColdStartCall, gas: Gas,
                              anchor: nat)
    requires scheme.Sound() && scheme.Sign(scheme.Hash(signed)) == Some(call.sig)
    requires Fits(call.fj, call.aa, call.validUntil, call.sig) && call.claimAmount <= Pricing.U128_MAX
    ensures signed == ColdStartPreimage(fpc, call) || scheme.Binds(signed, ColdStartPreimage(fpc, call)) ==>
              (ColdStartEntrypointAccepts(scheme, fpc, call, gas, anchor) <==>
                 && call.claimAmount >= call.aa
                 && InWindow(anchor, call.validUntil) && MaxGasCost(gas) == Some(call.fj)
                 && signed == ColdStartPreimage(fpc, call))
  {
    assert scheme.SignsWell(scheme.Hash(signed));
    hide ColdStartPreimage, MaxGasCost, InWindow;
  }
}
