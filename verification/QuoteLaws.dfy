/**
  How the quote routes answer every request, in the texts of the request, the stored policy and the numbers that are
  signed: a second account of the routes (services/attestation/src/server.ts, signer.ts) beside `QuoteRoutes`.
*/
module QuoteLaws {
  import opened Addresses
  import opened Decimal
  import opened Outcomes
  import opened PolicyStore
  import opened QuoteRoutes
  import opened Quotes
  import opened Wire
  import Division
  import Pricing

  // -------- what a request says

  /** The text between the blanks is an address or a field element and decodes to `a`. */
  predicate Names(codec: Codec, field: Option<string>, a: Field) {
    field.Some? && !Blank(field.value) && codec.decode(Trim(field.value)) == Some(a)
  }

  /** The text writes `n`, between 1 and 2^128 - 1, in at most 39 digits, with any zeros in front and blanks around. */
  ghost predicate Amounts(field: Option<string>, n: nat) {
    && field.Some? && 1 <= n <= 0xFFFF_FFFF_FFFF_FFFF_FFFF_FFFF_FFFF_FFFF
    && exists before, zeros, after ::
         && Blank(before) && Zeros(zeros) && Blank(after)
         && |zeros + Print(n)| <= 39
         && field.value == before + (zeros + Print(n)) + after
  }

  lemma AddressIsRead(codec: Codec, field: Option<string>, a: Field)
    ensures ParseAddress(codec, field) == Some(a) <==> Names(codec, field, a) && a != 0
    ensures ParseField(codec, field) == Some(a) <==> Names(codec, field, a)
  {
    if field.Some? {
      TrimEmptiesBlanks(field.value);
    }
  }

  lemma AmountIsRead(field: Option<string>, n: nat)
    ensures ParseAmount(field) == Some(n) <==> Amounts(field, n)
  {
    if ParseAmount(field) == Some(n) {
      var before, zeros, after := ParsedIsWritten(field.value);
      assert Amounts(field, n);
    }
    if Amounts(field, n) {
      var before, zeros, after :|
        && Blank(before) && Zeros(zeros) && Blank(after)
        && |zeros + Print(n)| <= 39
        && field.value == before + (zeros + Print(n)) + after;
      WrittenIsParsed(before, zeros, n, after);
    }
  }

  /** The request asks for a quote for this user, this asset and this much Fee Juice, and the asset has a policy. */
  ghost predicate Asks(ctx: Context, entries: Entries, req: Request, user: Field, asset: Field, fj: nat) {
    && Names(ctx.addresses, req.user, user) && user != 0
    && Names(ctx.addresses, req.acceptedAsset, asset) && asset != 0
    && Amounts(req.fjAmount, fj)
    && ctx.addresses.encode(asset) in entries
  }

  lemma RequestIsRead(ctx: Context, entries: Entries, req: Request, user: Field, asset: Field, fj: nat, policy: Policy)
    requires ctx.addresses.Sound()
    ensures ParseQuoteRequest(ctx, entries, req) == Some(Parsed(user, asset, fj, policy)) <==>
              Asks(ctx, entries, req, user, asset, fj) && entries[ctx.addresses.encode(asset)] == policy
  {
    AddressIsRead(ctx.addresses, req.user, user);
    AddressIsRead(ctx.addresses, req.acceptedAsset, asset);
    AmountIsRead(req.fjAmount, fj);
    assert ctx.addresses.Reads(asset);
    hide Names, Amounts, ParseAmount, ParseAddress;
  }

  /** `charge` is the least amount that covers `fj` at the policy's rate with its margin. */
  predicate CoversLeast(p: Policy, fj: nat, charge: int) {
    && fj * (p.rateNum * (10000 + p.feeBips)) <= charge * (p.rateDen * 10000)
    && (charge - 1) * (p.rateDen * 10000) < fj * (p.rateNum * (10000 + p.feeBips))
  }

  lemma ChargeIs(p: Policy, fj: nat, charge: int)
    requires p.rateNum > 0 && p.rateDen > 0 && 0 <= p.feeBips <= 10000
    ensures CoversLeast(p, fj, charge) <==> charge == Pricing.Charge(RateOf(p), fj)
    ensures fj > 0 ==> Pricing.Charge(RateOf(p), fj) > 0
  {
    var rate := RateOf(p);
    Pricing.RateDenPositive(rate);
    Division.CeilDivIsLeast(fj * Pricing.RateNum(rate), Pricing.RateDen(rate), charge);
    Division.CeilDivIsLeast(fj * Pricing.RateNum(rate), Pricing.RateDen(rate), charge - 1);
    Division.CeilDivIsLeast(fj * Pricing.RateNum(rate), Pricing.RateDen(rate), 0);
    if fj > 0 {
      Division.MulMonotone(1, 1, fj, Pricing.RateNum(rate));
    }
  }

  /** The price of a request that was read, for an amount of at least one. */
  lemma PriceIs(ctx: Context, p: Parsed, charge: nat, now: nat)
    requires Good(ctx.addresses, p.policy) && p.fj > 0 && CoversLeast(p.policy, p.fj, charge)
    ensures p.policy.rateNum * (10000 + p.policy.feeBips) >= 0 && p.policy.rateDen * 10000 >= 0
    ensures Price(ctx, p, now) ==
            if charge > 0xFFFF_FFFF_FFFF_FFFF_FFFF_FFFF_FFFF_FFFF then None
            else
              Some(Pricing.Pricing(p.policy.rateNum * (10000 + p.policy.feeBips), p.policy.rateDen * 10000,
                                   now + ctx.validitySeconds, charge))
  {
    ChargeIs(p.policy, p.fj, charge);
    hide CoversLeast, Pricing.Charge;
  }

  /** The list that is signed for it, or a failure. */
  lemma QuoteSignature(ctx: Context, p: Parsed, price: Pricing.Pricing)
    ensures var first := if ctx.rateQuotes then price.rateNum else p.fj;
            var second := if ctx.rateQuotes then price.rateDen else price.aaPaymentAmount;
            Signature(ctx, SignedPreimage(ctx, p, price)) ==
            if !(first < MODULUS && second < MODULUS && price.validUntil < MODULUS) then None
            else
              match ctx.scheme.sign(ctx.scheme.hash(
                [0x465043, ctx.fpc, p.asset, first, second, price.validUntil, p.user]))
              case None => None
              case Some(sig) => Some(SignatureText(sig))
  {
  }

  // -------- what it is answered

  /** A request that was read is answered by its price and its signature. */
  lemma QuoteFollows(ctx: Context, entries: Entries, authorised: bool, req: Request, p: Parsed, now: nat)
    requires AllGood(ctx.addresses, entries) && Good(ctx.addresses, p.policy)
    requires ParseQuoteRequest(ctx, entries, req) == Some(p)
    ensures var reply, price := QuoteDecision(ctx, entries, authorised, req, now), Price(ctx, p, now);
            if !authorised then reply == Unauthorised
            else if price.None? then reply == Refused
            else
              var signature := Signature(ctx, SignedPreimage(ctx, p, price.value));
              reply == if signature.None? then Broken
                       else Issued(QuoteResponse(
                         p.policy.address, Print(p.fj), Print(price.value.aaPaymentAmount),
                         PrintInt(price.value.validUntil), signature.value,
                         if ctx.rateQuotes then Some((PrintInt(price.value.rateNum), PrintInt(price.value.rateDen)))
                         else None))
  {
    hide AllGood, Good, ParseQuoteRequest, Price, Signature, SignedPreimage, Print;
  }

  lemma ColdStartFollows(ctx: Context, entries: Entries, authorised: bool, req: ColdStartRequest, p: Parsed,
                         claim: nat, secretHash: Field, now: nat)
    requires AllGood(ctx.addresses, entries) && Good(ctx.addresses, p.policy)
    requires ParseQuoteRequest(ctx, entries, req.base) == Some(p)
    requires ParseAmount(req.claimAmount) == Some(claim)
    requires ParseField(ctx.fields, req.claimSecretHash) == Some(secretHash)
    ensures var reply, price := ColdStartDecision(ctx, entries, authorised, req, now), Price(ctx, p, now);
            if !authorised then reply == Unauthorised
            else if price.None? || claim < price.value.aaPaymentAmount then reply == Refused
            else
              var quote := ColdStartQuote(AmountQuote(ctx, p, price.value), claim, secretHash);
              var signature := Signature(ctx, ColdStartQuotePreimage(quote));
              reply == if signature.None? then Broken
                       else Issued(ColdStartQuoteResponse(
                         QuoteResponse(
                           p.policy.address, Print(p.fj), Print(price.value.aaPaymentAmount),
                           PrintInt(price.value.validUntil), signature.value, None),
                         Print(claim), ctx.fields.encode(secretHash)))
  {
    hide AllGood, Good, ParseQuoteRequest, ParseAmount, ParseField, Price, Signature, ColdStartQuotePreimage;
    hide AmountQuote, Print;
  }

  /** An authorised request that asks for nothing the service can price is refused. */
  lemma UnaskedIsRefused(ctx: Context, entries: Entries, req: Request, now: nat)
    requires ctx.addresses.Sound() && AllGood(ctx.addresses, entries)
    requires forall user, asset, fj :: !Asks(ctx, entries, req, user, asset, fj)
    ensures QuoteDecision(ctx, entries, true, req, now) == Refused
  {
    var parsed := ParseQuoteRequest(ctx, entries, req);
    if parsed.Some? {
      var p := parsed.value;
      RequestIsRead(ctx, entries, req, p.user, p.asset, p.fj, p.policy);
    }
    hide Asks, ParseQuoteRequest, AllGood;
  }

  /**
    Every other request, in either format: refused exactly for a charge above 2^128 - 1, broken exactly where a number
    of the list is no field element or signing its hash throws, and otherwise issued with these texts.
  */
  lemma QuoteAnswers(ctx: Context, entries: Entries, authorised: bool, req: Request, user: Field, asset: Field, fj: nat,
                     charge: nat, now: nat)
    requires ctx.addresses.Sound() && AllGood(ctx.addresses, entries)
    requires Asks(ctx, entries, req, user, asset, fj)
    requires CoversLeast(entries[ctx.addresses.encode(asset)], fj, charge)
    ensures var policy := entries[ctx.addresses.encode(asset)];
            var num, den := policy.rateNum * (10000 + policy.feeBips), policy.rateDen * 10000;
            var first, second := if ctx.rateQuotes then num else fj, if ctx.rateQuotes then den else charge;
            var validUntil := now + ctx.validitySeconds;
            var reply := QuoteDecision(ctx, entries, authorised, req, now);
            if !authorised then reply == Unauthorised
            else if charge > 0xFFFF_FFFF_FFFF_FFFF_FFFF_FFFF_FFFF_FFFF then reply == Refused
            else if !(0 <= first < MODULUS && 0 <= second < MODULUS && validUntil < MODULUS) then reply == Broken
            else
              match ctx.scheme.sign(ctx.scheme.hash([0x465043, ctx.fpc, asset, first, second, validUntil, user]))
              case None => reply == Broken
              case Some(sig) =>
                reply == Issued(QuoteResponse(
                  policy.address, Print(fj), Print(charge), PrintInt(validUntil), SignatureText(sig),
                  if ctx.rateQuotes then Some((PrintInt(num), PrintInt(den))) else None))
  {
    var policy := entries[ctx.addresses.encode(asset)];
    RequestIsRead(ctx, entries, req, user, asset, fj, policy);
    assert Good(ctx.addresses, policy) && fj > 0;
    hide Asks, AllGood, Good, ParseQuoteRequest, CoversLeast;
    var p := Parsed(user, asset, fj, policy);
    PriceIs(ctx, p, charge, now);
    if Price(ctx, p, now).Some? {
      QuoteSignature(ctx, p, Price(ctx, p, now).value);
    }
    QuoteFollows(ctx, entries, authorised, req, p, now);
    hide *;
  }

  /**
    A client gets a quote exactly if its request can be priced, the numbers of the list are field elements, and the
    operator signs.
  */
  lemma QuotedExactlyWhen(ctx: Context, entries: Entries, user: Field, asset: Field, fj: nat, now: nat)
    requires ctx.Sound() && AllGood(ctx.addresses, entries)
    ensures (exists response :: GotQuote(ctx, entries, user, asset, fj, now, response)) <==>
              && Priced(ctx, entries, user, asset, fj)
              && var policy := entries[ctx.addresses.Print(asset)];
                 var first := if ctx.rateQuotes then policy.rateNum * (10000 + policy.feeBips) else fj;
                 var second := if ctx.rateQuotes then policy.rateDen * 10000 else ChargeOf(ctx, entries, asset, fj);
                 var validUntil := now + ctx.validitySeconds;
                 && 0 <= first < MODULUS && 0 <= second < MODULUS && validUntil < MODULUS
                 && ctx.scheme.Sign(ctx.scheme.Hash([0x465043, ctx.fpc, asset, first, second, validUntil, user])).Some?
  {
    var key, req := ctx.addresses.Print(asset), ClientRequest(ctx, user, asset, fj);
    AnsweredExactlyWhen(ctx, entries, true, user, asset, fj, now);
    if Priced(ctx, entries, user, asset, fj) {
      var charge := ChargeOf(ctx, entries, asset, fj);
      ClientRequestIsRead(ctx, entries, user, asset, fj);
      RequestIsRead(ctx, entries, req, user, asset, fj, entries[key]);
      ChargeIs(entries[key], fj, charge);
      QuoteAnswers(ctx, entries, true, req, user, asset, fj, charge, now);
    }
    hide Asks, ParseQuoteRequest, CoversLeast, SignatureText, Print, PrintInt, Good, AllGood, Codec.Sound;
    hide Context.Sound, Priced, ClientRequest, ChargeOf;
    var reply := QuoteDecision(ctx, entries, true, req, now);
    assert reply.Issued? ==> GotQuote(ctx, entries, user, asset, fj, now, reply.response);
  }

  // -------- cold start

  ghost predicate AsksColdStart(ctx: Context, entries: Entries, req: ColdStartRequest, user: Field, asset: Field,
                                fj: nat, claim: nat, secretHash: Field)
  {
    && Asks(ctx, entries, req.base, user, asset, fj)
    && Amounts(req.claimAmount, claim) && Names(ctx.fields, req.claimSecretHash, secretHash)
  }

  lemma UnaskedColdStartIsRefused(ctx: Context, entries: Entries, req: ColdStartRequest, now: nat)
    requires ctx.addresses.Sound() && AllGood(ctx.addresses, entries)
    requires forall user, asset, fj, claim, secretHash ::
               !AsksColdStart(ctx, entries, req, user, asset, fj, claim, secretHash)
    ensures ColdStartDecision(ctx, entries, true, req, now) == Refused
  {
    var parsed := ParseQuoteRequest(ctx, entries, req.base);
    var claim, secretHash := ParseAmount(req.claimAmount), ParseField(ctx.fields, req.claimSecretHash);
    if parsed.Some? && claim.Some? && secretHash.Some? {
      var p := parsed.value;
      assert !AsksColdStart(ctx, entries, req, p.user, p.asset, p.fj, claim.value, secretHash.value);
      RequestIsRead(ctx, entries, req.base, p.user, p.asset, p.fj, p.policy);
      AmountIsRead(req.claimAmount, claim.value);
      AddressIsRead(ctx.fields, req.claimSecretHash, secretHash.value);
    }
    hide AsksColdStart, ParseQuoteRequest, ParseAmount, ParseField, AllGood;
  }

  lemma ColdStartIsRead(ctx: Context, entries: Entries, req: ColdStartRequest, user: Field, asset: Field, fj: nat,
                        claim: nat, secretHash: Field)
    requires ctx.addresses.Sound() && AllGood(ctx.addresses, entries)
    requires AsksColdStart(ctx, entries, req, user, asset, fj, claim, secretHash)
    ensures var policy := entries[ctx.addresses.encode(asset)];
            && Good(ctx.addresses, policy) && fj > 0
            && ParseQuoteRequest(ctx, entries, req.base) == Some(Parsed(user, asset, fj, policy))
    ensures ParseAmount(req.claimAmount) == Some(claim)
    ensures ParseField(ctx.fields, req.claimSecretHash) == Some(secretHash)
  {
    RequestIsRead(ctx, entries, req.base, user, asset, fj, entries[ctx.addresses.encode(asset)]);
    AmountIsRead(req.claimAmount, claim);
    AddressIsRead(ctx.fields, req.claimSecretHash, secretHash);
    hide ParseQuoteRequest, ParseAmount, ParseField, Good;
  }

  lemma ColdStartSignature(ctx: Context, quote: ColdStartQuote)
    ensures var q := quote.quote;
            Signature(ctx, ColdStartQuotePreimage(quote)) ==
            if !(q.fj < MODULUS && q.aa < MODULUS && q.validUntil < MODULUS && quote.claimAmount < MODULUS) then None
            else
              match ctx.scheme.sign(ctx.scheme.hash(
                [0x46504373, q.fpc, q.asset, q.fj, q.aa, q.validUntil, q.user, quote.claimAmount,
                 quote.claimSecretHash]))
              case None => None
              case Some(sig) => Some(SignatureText(sig))
  {
  }

  /**
    A readable cold-start request: refused exactly for a charge above 2^128 - 1 or above the claim, broken exactly where
    the expiry is no field element or signing throws, and otherwise issued with these texts, in either format.
  */
  lemma ColdStartAnswers(ctx: Context, entries: Entries, authorised: bool, req: ColdStartRequest, user: Field,
                         asset: Field, fj: nat, charge: nat, claim: nat, secretHash: Field, now: nat)
    requires ctx.addresses.Sound() && AllGood(ctx.addresses, entries)
    requires AsksColdStart(ctx, entries, req, user, asset, fj, claim, secretHash)
    requires CoversLeast(entries[ctx.addresses.encode(asset)], fj, charge)
    ensures var policy := entries[ctx.addresses.encode(asset)];
            var validUntil := now + ctx.validitySeconds;
            var reply := ColdStartDecision(ctx, entries, authorised, req, now);
            if !authorised then reply == Unauthorised
            else if charge > 0xFFFF_FFFF_FFFF_FFFF_FFFF_FFFF_FFFF_FFFF || claim < charge then reply == Refused
            else if !(fj < MODULUS && charge < MODULUS && validUntil < MODULUS && claim < MODULUS) then reply == Broken
            else
              match ctx.scheme.sign(ctx.scheme.hash(
                [0x46504373, ctx.fpc, asset, fj, charge, validUntil, user, claim, secretHash]))
              case None => reply == Broken
              case Some(sig) =>
                reply == Issued(ColdStartQuoteResponse(
                  QuoteResponse(
                    policy.address, Print(fj), Print(charge), PrintInt(validUntil), SignatureText(sig), None),
                  Print(claim), ctx.fields.encode(secretHash)))
  {
    var policy := entries[ctx.addresses.encode(asset)];
    ColdStartIsRead(ctx, entries, req, user, asset, fj, claim, secretHash);
    hide AsksColdStart, Asks, AllGood, Good, ParseQuoteRequest, ParseAmount, ParseField, CoversLeast;
    var p := Parsed(user, asset, fj, policy);
    PriceIs(ctx, p, charge, now);
    if Price(ctx, p, now).Some? {
      var price := Price(ctx, p, now).value;
      assert AmountQuote(ctx, p, price) == Quote(ctx.fpc, asset, fj, charge, now + ctx.validitySeconds, user);
      ColdStartSignature(ctx, ColdStartQuote(AmountQuote(ctx, p, price), claim, secretHash));
    }
    ColdStartFollows(ctx, entries, authorised, req, p, claim, secretHash, now);
    hide *;
  }
}
