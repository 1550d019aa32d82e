/**
  A concrete attestation service in the rate format, with a codec and a signature scheme that meet the assumptions made
  of them, and what the contract makes of its quotes.
*/
module RateFormat {
  import opened Addresses
  import opened Decimal
  import opened Outcomes
  import opened PolicyStore
  import opened QuoteRoutes
  import opened Quotes
  import opened Wire
  import Pricing

  /** Addresses written in decimal. */
  function DecimalCodec(): Codec {
    Codec(s => if AllDigits(s) && s != "" && Value(s) < MODULUS then Some(Value(s)) else None, (a: Field) => Print(a))
  }

  const TOY_SIGNATURE: seq<Byte> := seq(64, i => 0)

  /** A toy scheme that hashes a list to its fourth element and signs only 10000. */
  function ToyScheme(): Scheme {
    Scheme(s => if |s| > 3 then s[3] else 0,
           h => if h == 10000 then Some(TOY_SIGNATURE) else None,
           (h, _) => h == 10000)
  }

  function RateService(): Context {
    Context(1, true, 300, DecimalCodec(), DecimalCodec(), ToyScheme())
  }

  lemma RateServiceIsSound()
    ensures RateService().Sound()
  {
    var codec := DecimalCodec();
    forall a: Field ensures codec.Reads(a) {
      PrintThenRead(a);
      DigitsAreTrimmed(Print(a));
    }
    forall h: Field ensures ToyScheme().SignsWell(h) {
    }
  }

  /** One asset at the market rate 1 / 1 without a margin. */
  function UnitPolicies(): Entries {
    map[Print(2) := Policy(Print(2), "T", 1, 1, 0)]
  }

  lemma UnitPoliciesAreGood()
    ensures AllGood(DecimalCodec(), UnitPolicies())
  {
    PrintThenRead(2);
  }

  /**
    At this service every amount gets a quote, and of all those quotes the contract takes only the one for 10000: rate
    quotes fail at every other amount, and at that one they work.
  */
  lemma RateQuoteAtUnitRate(fj: nat) returns (response: QuoteResponse, call: FeeCall)
    requires 1 <= fj <= Pricing.U128_MAX
    ensures GotQuote(RateService(), UnitPolicies(), 3, 2, fj, 0, response)
    ensures ClientFeeCall(2, 0, fj, response) == Some(call)
    ensures FeeEntrypointAccepts(ToyScheme(), 1, 3, call, Gas(1, 0, fj, 0), 0) <==> fj == 10000
  {
    var ctx, entries, gas := RateService(), UnitPolicies(), Gas(1, 0, fj, 0);
    RateServiceIsSound();
    UnitPoliciesAreGood();
    assert ComputeFjAmount(gas) == fj;
    response := UnitRateQuote(fj);
    hide GotQuote, ClientFeeCall, QuotedList, Context.Sound, FeePreimage, FeeEntrypointAccepts, Pricing.AtPar, AllGood;
    hide ToyScheme, DecimalCodec;
    var rate, signed;
    rate, signed, call := QuoteIsAcceptedExactlyWhen(ctx, entries, 3, 2, 0, fj, 0, response, gas, 0, 1, 3);
    assert rate == Pricing.Rate(1, 1, 0);
    UnitRateCall(fj, signed, call);
  }

  lemma UnitRateCall(fj: nat, signed: seq<Field>, call: FeeCall)
    requires call.fj == fj && Fits(call.fj, call.aa, call.validUntil, call.sig)
    requires call.aa == Pricing.Charge(Pricing.Rate(1, 1, 0), fj)
    requires Some(signed) == QuotedList(RateService(), Pricing.Rate(1, 1, 0), 3, call)
    ensures ToyScheme().Binds(signed, FeePreimage(1, 3, call))
    ensures Pricing.AtPar(Pricing.Rate(1, 1, 0), fj) <==> fj == 10000
  {
    var rate := Pricing.Rate(1, 1, 0);
    Pricing.ReadsAsAmountsExactlyAtPar(rate, fj);
    QuotedListRebuilt(RateService(), rate, 3, call, 1, 3);
    assert signed[3] == 10000 && FeePreimage(1, 3, call)[3] == fj;
    hide Pricing.Charge;
  }

  lemma UnitRateQuote(fj: nat) returns (response: QuoteResponse)
    requires 1 <= fj <= Pricing.U128_MAX
    ensures GotQuote(RateService(), UnitPolicies(), 3, 2, fj, 0, response)
  {
    var ctx, entries := RateService(), UnitPolicies();
    RateServiceIsSound();
    UnitPoliciesAreGood();
    PricedExactlyWhen(ctx, entries, 3, 2, fj, 0);
    ClientRequestIsRead(ctx, entries, 3, 2, fj);
    var p := Parsed(3, 2, fj, entries[Print(2)]);
    assert Priced(ctx, entries, 3, 2, fj);
    UnitRateSigned(p);
    hide ParseQuoteRequest, AllGood, Context.Sound, BuildQuoteResponse, ClientRequest, Priced, ChargeOf, Price;
    hide Signature, SignedPreimage, Good;
    response := QuoteDecision(ctx, entries, true, ClientRequest(ctx, 3, 2, fj), 0).response;
  }

  lemma UnitRateSigned(p: Parsed)
    requires Good(DecimalCodec(), p.policy) && p.policy.rateNum == p.policy.rateDen == 1 && p.policy.feeBips == 0
    requires Price(RateService(), p, 0).Some?
    ensures Signature(RateService(), SignedPreimage(RateService(), p, Price(RateService(), p, 0).value)).Some?
  {
    hide Pricing.Charge;
    assert SignedPreimage(RateService(), p, Price(RateService(), p, 0).value).value[3] == 10000;
  }
}
