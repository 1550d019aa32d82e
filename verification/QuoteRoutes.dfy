/**
  The two quote routes (services/attestation/src/server.ts) and the client that calls them (sdk/src/payment-method.ts).
  A decision function says what a request is answered; the route methods, with their early returns and their once-only
  observer, are proved to answer it; the theorems follow a quote from the client's request to the contract's checks.
  HTTP and JSON are taken to carry the texts unchanged; authorisation is a parameter.
*/
module QuoteRoutes {
  import opened Addresses
  import opened Decimal
  import opened Metrics
  import opened Outcomes
  import opened PolicyStore
  import opened Quotes
  import opened Wire
  import Pricing

  datatype Context = Context(fpc: Field, rateQuotes: bool, validitySeconds: nat, addresses: Codec, fields: Codec,
                             scheme: Scheme)
  {
    ghost predicate Sound() {
      addresses.Sound() && fields.Sound() && scheme.Sound()
    }
  }

  datatype Request = Request(user: Option<string>, acceptedAsset: Option<string>, fjAmount: Option<string>)

  datatype ColdStartRequest = ColdStartRequest(base: Request, claimAmount: Option<string>,
                                               claimSecretHash: Option<string>)

  datatype QuoteResponse = QuoteResponse(acceptedAsset: string, fjAmount: string, aaPaymentAmount: string,
                                         validUntil: string, signature: string, rate: Option<(string, string)>)

  datatype ColdStartQuoteResponse = ColdStartQuoteResponse(base: QuoteResponse, claimAmount: string,
                                                           claimSecretHash: string)

  datatype Reply<R> = Unauthorised | Refused | Broken | Issued(response: R)

  function OutcomeOf<R>(reply: Reply<R>): Metrics.Outcome {
    match reply
    case Unauthorised => Unauthorized
    case Refused => BadRequest
    case Broken => InternalError
    case Issued(_) => Success
  }

  // -------- reading a request

  function ParseAddress(codec: Codec, field: Option<string>): Option<Field> {
    match field
    case None => None
    case Some(text) =>
      if Trim(text) == "" then None
      else match codec.Parse(Trim(text))
        case None => None
        case Some(a) => if a == 0 then None else Some(a)
  }

  function ParseField(codec: Codec, field: Option<string>): Option<Field> {
    match field
    case None => None
    case Some(text) => if Trim(text) == "" then None else codec.Parse(Trim(text))
  }

  function PolicyOf(codec: Codec, entries: Entries, asset: Field): Option<Policy> {
    match codec.Normalise(codec.Print(asset))
    case None => None
    case Some(key) => if key in entries then Some(entries[key]) else None
  }

  datatype Parsed = Parsed(user: Field, asset: Field, fj: nat, policy: Policy)

  function ParseQuoteRequest(ctx: Context, entries: Entries, req: Request): Option<Parsed> {
    var user := ParseAddress(ctx.addresses, req.user);
    var asset := ParseAddress(ctx.addresses, req.acceptedAsset);
    var fj := ParseAmount(req.fjAmount);
    if user.None? || asset.None? || fj.None? then None
    else match PolicyOf(ctx.addresses, entries, asset.value)
      case None => None
      case Some(policy) => Some(Parsed(user.value, asset.value, fj.value, policy))
  }

  lemma ParsedPolicyIsGood(ctx: Context, entries: Entries, req: Request)
    requires AllGood(ctx.addresses, entries) && ParseQuoteRequest(ctx, entries, req).Some?
    ensures Good(ctx.addresses, ParseQuoteRequest(ctx, entries, req).value.policy)
  {
  }

  function Price(ctx: Context, p: Parsed, now: nat): Option<Pricing.Pricing>
    requires Good(ctx.addresses, p.policy)
  {
    Pricing.ComputeQuotePricing(RateOf(p.policy), p.fj, now, ctx.validitySeconds)
  }

  // -------- answering it

  function AmountQuote(ctx: Context, p: Parsed, price: Pricing.Pricing): Quote {
    Quote(ctx.fpc, p.asset, p.fj, price.aaPaymentAmount, price.validUntil, p.user)
  }

  /** What the operator signs for a regular quote, in the configured format. */
  function SignedPreimage(ctx: Context, p: Parsed, price: Pricing.Pricing): Option<seq<Field>> {
    if ctx.rateQuotes then
      RateQuotePreimage(RateQuote(ctx.fpc, p.asset, price.rateNum, price.rateDen, price.validUntil, p.user))
    else QuotePreimage(AmountQuote(ctx, p, price))
  }

  /** The signature text; `None` where building the list or signing throws. */
  function Signature(ctx: Context, preimage: Option<seq<Field>>): Option<string> {
    match preimage
    case None => None
    case Some(fields) =>
      match ctx.scheme.Sign(ctx.scheme.Hash(fields))
      case None => None
      case Some(sig) => Some(SignatureText(sig))
  }

  function BuildQuoteResponse(ctx: Context, p: Parsed, price: Pricing.Pricing, signature: string): QuoteResponse {
    QuoteResponse(p.policy.address, Print(p.fj), Print(price.aaPaymentAmount), PrintInt(price.validUntil), signature,
                  if ctx.rateQuotes then Some((Print(price.rateNum), Print(price.rateDen))) else None)
  }

  ghost function QuoteDecision(ctx: Context, entries: Entries, authorised: bool, req: Request, now: nat)
    : Reply<QuoteResponse>
    requires AllGood(ctx.addresses, entries)
  {
    var parsed := ParseQuoteRequest(ctx, entries, req);
    if !authorised then Unauthorised
    else if parsed.None? then Refused
    else
      ParsedPolicyIsGood(ctx, entries, req);
      var price := Price(ctx, parsed.value, now);
      if price.None? then Refused
      else
        match Signature(ctx, SignedPreimage(ctx, parsed.value, price.value))
        case None => Broken
        case Some(signature) => Issued(BuildQuoteResponse(ctx, parsed.value, price.value, signature))
  }

  ghost function ColdStartDecision(ctx: Context, entries: Entries, authorised: bool, req: ColdStartRequest, now: nat)
    : Reply<ColdStartQuoteResponse>
    requires AllGood(ctx.addresses, entries)
  {
    var parsed := ParseQuoteRequest(ctx, entries, req.base);
    var claimAmount := ParseAmount(req.claimAmount);
    var secretHash := ParseField(ctx.fields, req.claimSecretHash);
    if !authorised then Unauthorised
    else if parsed.None? || claimAmount.None? || secretHash.None? then Refused
    else
      ParsedPolicyIsGood(ctx, entries, req.base);
      var price := Price(ctx, parsed.value, now);
      if price.None? || claimAmount.value < price.value.aaPaymentAmount then Refused
      else
        var quote := ColdStartQuote(AmountQuote(ctx, parsed.value, price.value), claimAmount.value, secretHash.value);
        match Signature(ctx, ColdStartQuotePreimage(quote))
        case None => Broken
        case Some(signature) =>
          var base := BuildQuoteResponse(ctx.(rateQuotes := false), parsed.value, price.value, signature);
          Issued(ColdStartQuoteResponse(base, Print(claimAmount.value), ctx.fields.Print(secretHash.value)))
  }

  // -------- the routes

  /** When the request came in and when its outcome was noted, on the process's own clock. */
  datatype Timing = Timing(startedNs: int, notedNs: int)

  function Noted<R>(reply: Reply<R>, t: Timing): Observation {
    Observation(OutcomeOf(reply), (t.notedNs - t.startedNs) as real / 1000000000.0)
  }

  /**
    The `/quote` route. `clock` is the chain time, `None` where reading it throws: then the request fails outside the
    handler's own error handling and nothing is observed. Otherwise exactly one outcome is, the one answered.
  */
  method HandleQuote(ctx: Context, store: LmdbAssetPolicyStore, metrics: AttestationMetrics, authorised: bool,
                     req: Request, clock: Option<nat>, t: Timing)
    returns (reply: Option<Reply<QuoteResponse>>)
    requires store.Valid() && store.codec == ctx.addresses && metrics.Valid()
    modifies metrics
    ensures metrics.Valid()
    ensures clock.None? ==> reply == None && metrics.history == old(metrics.history)
    ensures clock.Some? ==>
              && reply == Some(QuoteDecision(ctx, store.db.entries, authorised, req, clock.value))
              && metrics.history == old(metrics.history) + [Noted(reply.value, t)]
              && Noted(reply.value, t).seconds == (t.notedNs - t.startedNs) as real / 1000000000.0
              && match reply.value
                 case Unauthorised => Noted(reply.value, t).outcome == Unauthorized
                 case Refused => Noted(reply.value, t).outcome == BadRequest
                 case Broken => Noted(reply.value, t).outcome == InternalError
                 case Issued(_) => Noted(reply.value, t).outcome == Success
  {
    hide ParseQuoteRequest, Price, SignedPreimage, Signature, BuildQuoteResponse, AllGood, Good;
    var observer := new QuoteObserver(metrics, t.startedNs);
    if clock.None? {
      return None;
    }
    if !authorised {
      observer.Observe(Unauthorized, t.notedNs);
      return Some(Unauthorised);
    }
    var parsed := ParseQuoteRequest(ctx, store.db.entries, req);
    if parsed.None? {
      observer.Observe(BadRequest, t.notedNs);
      return Some(Refused);
    }
    ParsedPolicyIsGood(ctx, store.db.entries, req);
    var price := Price(ctx, parsed.value, clock.value);
    if price.None? {
      observer.Observe(BadRequest, t.notedNs);
      return Some(Refused);
    }
    var signature := Signature(ctx, SignedPreimage(ctx, parsed.value, price.value));
    if signature.None? {
      observer.Observe(InternalError, t.notedNs);
      return Some(Broken);
    }
    observer.Observe(Success, t.notedNs);
    reply := Some(Issued(BuildQuoteResponse(ctx, parsed.value, price.value, signature.value)));
  }

  /** The `/cold-start-quote` route. */
  method HandleColdStartQuote(ctx: Context, store: LmdbAssetPolicyStore, metrics: AttestationMetrics, authorised: bool,
                              req: ColdStartRequest, clock: Option<nat>, t: Timing)
    returns (reply: Option<Reply<ColdStartQuoteResponse>>)
    requires store.Valid() && store.codec == ctx.addresses && metrics.Valid()
    modifies metrics
    ensures metrics.Valid()
    ensures clock.None? ==> reply == None && metrics.history == old(metrics.history)
    ensures clock.Some? ==>
              && reply == Some(ColdStartDecision(ctx, store.db.entries, authorised, req, clock.value))
              && metrics.history == old(metrics.history) + [Noted(reply.value, t)]
              && Noted(reply.value, t).seconds == (t.notedNs - t.startedNs) as real / 1000000000.0
              && match reply.value
                 case Unauthorised => Noted(reply.value, t).outcome == Unauthorized
                 case Refused => Noted(reply.value, t).outcome == BadRequest
                 case Broken => Noted(reply.value, t).outcome == InternalError
                 case Issued(_) => Noted(reply.value, t).outcome == Success
  {
    hide ParseQuoteRequest, Price, AmountQuote, Signature, BuildQuoteResponse, AllGood, Good;
    var observer := new QuoteObserver(metrics, t.startedNs);
    if clock.None? {
      return None;
    }
    if !authorised {
      observer.Observe(Unauthorized, t.notedNs);
      return Some(Unauthorised);
    }
    var parsed := ParseQuoteRequest(ctx, store.db.entries, req.base);
    var claimAmount := ParseAmount(req.claimAmount);
    var secretHash := ParseField(ctx.fields, req.claimSecretHash);
    if parsed.None? || claimAmount.None? || secretHash.None? {
      observer.Observe(BadRequest, t.notedNs);
      return Some(Refused);
    }
    ParsedPolicyIsGood(ctx, store.db.entries, req.base);
    var price := Price(ctx, parsed.value, clock.value);
    if price.None? {
      observer.Observe(BadRequest, t.notedNs);
      return Some(Refused);
    }
    if claimAmount.value < price.value.aaPaymentAmount {
      observer.Observe(BadRequest, t.notedNs);
      return Some(Refused);
    }
    var quote := ColdStartQuote(AmountQuote(ctx, parsed.value, price.value), claimAmount.value, secretHash.value);
    var signature := Signature(ctx, ColdStartQuotePreimage(quote));
    if signature.None? {
      observer.Observe(InternalError, t.notedNs);
      return Some(Broken);
    }
    observer.Observe(Success, t.notedNs);
    var base := BuildQuoteResponse(ctx.(rateQuotes := false), parsed.value, price.value, signature.value);
    reply := Some(Issued(ColdStartQuoteResponse(base, Print(claimAmount.value), ctx.fields.Print(secretHash.value))));
  }

  // -------- the client

  function ClientRequest(ctx: Context, user: Field, asset: Field, fj: nat): Request {
    Request(Some(ctx.addresses.Print(user)), Some(ctx.addresses.Print(asset)), Some(Print(fj)))
  }

  function ClientColdStartRequest(ctx: Context, user: Field, asset: Field, fj: nat, claimAmount: nat,
                                  secretHash: Field): ColdStartRequest
  {
    ColdStartRequest(ClientRequest(ctx, user, asset, fj), Some(Print(claimAmount)), Some(ctx.fields.Print(secretHash)))
  }

  datatype QuoteFields = QuoteFields(aa: int, validUntil: int, sig: seq<Byte>)

  /** The client's reading of a quote; `None` where a number does not read and the call throws. */
  function ParseQuoteFields(r: QuoteResponse): Option<QuoteFields> {
    var aa, validUntil := ReadBigInt(r.aaPaymentAmount), ReadBigInt(r.validUntil);
    if aa.None? || validUntil.None? then None
    else Some(QuoteFields(aa.value, validUntil.value, SignatureBytes(r.signature)))
  }

  /** The entrypoint call of `createPaymentMethod`; the argument types take no negative number. */
  function ClientFeeCall(asset: Field, nonce: Field, fj: nat, r: QuoteResponse): Option<FeeCall> {
    match ParseQuoteFields(r)
    case None => None
    case Some(f) =>
      if f.aa < 0 || f.validUntil < 0 then None else Some(FeeCall(asset, nonce, fj, f.aa, f.validUntil, f.sig))
  }

  /** The entrypoint call of `executeColdStart`. */
  function ClientColdStartCall(user: Field, asset: Field, claimAmount: nat, secretHash: Field, fj: nat,
                               r: ColdStartQuoteResponse): Option<ColdStartCall>
  {
    match ParseQuoteFields(r.base)
    case None => None
    case Some(f) =>
      if f.aa < 0 || f.validUntil < 0 then None
      else Some(ColdStartCall(user, asset, claimAmount, secretHash, fj, f.aa, f.validUntil, f.sig))
  }

  // -------- from request to contract

  /** A client's request is read as what the client meant, exactly where user, asset, amount and policy are usable. */
  lemma ClientRequestIsRead(ctx: Context, entries: Entries, user: Field, asset: Field, fj: nat)
    requires ctx.Sound()
    ensures var key := ctx.addresses.Print(asset);
            ParseQuoteRequest(ctx, entries, ClientRequest(ctx, user, asset, fj)) ==
            if user != 0 && asset != 0 && 1 <= fj <= Pricing.U128_MAX && key in entries
            then Some(Parsed(user, asset, fj, entries[key]))
            else None
  {
    ctx.addresses.PrintedIsTrimmed(user);
    ctx.addresses.PrintedIsTrimmed(asset);
    AmountRoundTrip(fj);
  }

  /** The client reads back the numbers and the signature bytes the service put into its response. */
  lemma ResponseIsRead(ctx: Context, p: Parsed, price: Pricing.Pricing, sig: seq<Byte>)
    ensures ParseQuoteFields(BuildQuoteResponse(ctx, p, price, SignatureText(sig))) ==
            Some(QuoteFields(price.aaPaymentAmount, price.validUntil, sig))
  {
    BigIntRoundTrip(price.aaPaymentAmount);
    BigIntRoundTrip(price.validUntil);
    SignatureRoundTrip(sig);
  }

  /** The conditions under which the service prices a client's request. */
  ghost predicate Priced(ctx: Context, entries: Entries, user: Field, asset: Field, fj: nat) {
    var key := ctx.addresses.Print(asset);
    && user != 0 && asset != 0 && 1 <= fj <= Pricing.U128_MAX
    && key in entries
    && Good(ctx.addresses, entries[key])
    && fj * entries[key].rateNum * (Pricing.BIPS + entries[key].feeBips)
       <= Pricing.U128_MAX * (entries[key].rateDen * Pricing.BIPS)
  }

  ghost function ChargeOf(ctx: Context, entries: Entries, asset: Field, fj: nat): nat
    requires AllGood(ctx.addresses, entries) && ctx.addresses.Print(asset) in entries
  {
    Pricing.Charge(RateOf(entries[ctx.addresses.Print(asset)]), fj)
  }

  lemma PricedExactlyWhen(ctx: Context, entries: Entries, user: Field, asset: Field, fj: nat, now: nat)
    requires ctx.Sound() && AllGood(ctx.addresses, entries)
    ensures var parsed := ParseQuoteRequest(ctx, entries, ClientRequest(ctx, user, asset, fj));
            && (parsed.Some? ==> Good(ctx.addresses, parsed.value.policy))
            && (Priced(ctx, entries, user, asset, fj) <==> parsed.Some? && Price(ctx, parsed.value, now).Some?)
            && (Priced(ctx, entries, user, asset, fj) ==>
                  && Price(ctx, parsed.value, now).value.aaPaymentAmount == ChargeOf(ctx, entries, asset, fj)
                  && ChargeOf(ctx, entries, asset, fj) > 0)
  {
    ClientRequestIsRead(ctx, entries, user, asset, fj);
    var key := ctx.addresses.Print(asset);
    if key in entries {
      Pricing.RefusedExactlyOutOfRange(RateOf(entries[key]), fj, now, ctx.validitySeconds);
    }
  }

  /** A client's request is refused exactly where it cannot be priced; only signing can still fail after that. */
  lemma AnsweredExactlyWhen(ctx: Context, entries: Entries, authorised: bool, user: Field, asset: Field, fj: nat,
                            now: nat)
    requires ctx.Sound() && AllGood(ctx.addresses, entries)
    ensures var reply := QuoteDecision(ctx, entries, authorised, ClientRequest(ctx, user, asset, fj), now);
            && (reply.Unauthorised? <==> !authorised)
            && (reply.Refused? <==> authorised && !Priced(ctx, entries, user, asset, fj))
  {
    PricedExactlyWhen(ctx, entries, user, asset, fj, now);
    hide ParseQuoteRequest, Price, Signature, SignedPreimage, BuildQuoteResponse, Priced, Good, AllGood;
  }

  /** `response` is the answer to the request `p`, signed with `sig`. */
  ghost predicate Answers(ctx: Context, p: Parsed, now: nat, response: QuoteResponse, sig: seq<Byte>)
    requires Good(ctx.addresses, p.policy)
  {
    var price := Price(ctx, p, now);
    && price.Some?
    && (var preimage := SignedPreimage(ctx, p, price.value);
        && preimage.Some?
        && ctx.scheme.Sign(ctx.scheme.Hash(preimage.value)) == Some(sig))
    && |sig| == 64
    && response == BuildQuoteResponse(ctx, p, price.value, SignatureText(sig))
  }

  /** The client got a quote for this user, asset and amount. */
  ghost predicate GotQuote(ctx: Context, entries: Entries, user: Field, asset: Field, fj: nat, now: nat,
                           response: QuoteResponse)
  {
    && AllGood(ctx.addresses, entries)
    && QuoteDecision(ctx, entries, true, ClientRequest(ctx, user, asset, fj), now) == Issued(response)
  }

  /** What an issued regular quote is made of. */
  lemma IssuedQuote(ctx: Context, entries: Entries, user: Field, asset: Field, fj: nat, now: nat,
                    response: QuoteResponse)
    returns (p: Parsed, sig: seq<Byte>)
    requires ctx.Sound() && GotQuote(ctx, entries, user, asset, fj, now, response)
    ensures Priced(ctx, entries, user, asset, fj)
    ensures p == Parsed(user, asset, fj, entries[ctx.addresses.Print(asset)])
    ensures Answers(ctx, p, now, response, sig)
    ensures Price(ctx, p, now).value.aaPaymentAmount == ChargeOf(ctx, entries, asset, fj)
  {
    PricedExactlyWhen(ctx, entries, user, asset, fj, now);
    ClientRequestIsRead(ctx, entries, user, asset, fj);
    p := Parsed(user, asset, fj, entries[ctx.addresses.Print(asset)]);
    var price := Price(ctx, p, now).value;
    var h := ctx.scheme.Hash(SignedPreimage(ctx, p, price).value);
    assert ctx.scheme.SignsWell(h);
    sig := ctx.scheme.Sign(h).value;
  }

  /** The list the operator signs for the quote that `call` spends. */
  function QuotedList(ctx: Context, rate: Pricing.Rate, user: Field, call: FeeCall): Option<seq<Field>> {
    if ctx.rateQuotes
    then RateQuotePreimage(RateQuote(ctx.fpc, call.asset, Pricing.RateNum(rate), Pricing.RateDen(rate), call.validUntil,
                                     user))
    else QuotePreimage(Quote(ctx.fpc, call.asset, call.fj, call.aa, call.validUntil, user))
  }

  /** The call the client makes of a quote carries the quoted numbers and the signature on `signed`. */
  lemma QuotedCall(ctx: Context, entries: Entries, user: Field, asset: Field, nonce: Field, fj: nat, now: nat,
                   response: QuoteResponse)
    returns (rate: Pricing.Rate, signed: seq<Field>, call: FeeCall)
    requires ctx.Sound() && GotQuote(ctx, entries, user, asset, fj, now, response)
    ensures Priced(ctx, entries, user, asset, fj)
    ensures rate == RateOf(entries[ctx.addresses.Print(asset)])
    ensures ClientFeeCall(asset, nonce, fj, response) == Some(call)
    ensures call == FeeCall(asset, nonce, fj, ChargeOf(ctx, entries, asset, fj), now + ctx.validitySeconds, call.sig)
    ensures fj <= Pricing.U128_MAX && call.aa <= Pricing.U128_MAX && |call.sig| == 64
    ensures ctx.scheme.Sign(ctx.scheme.Hash(signed)) == Some(call.sig)
    ensures Some(signed) == QuotedList(ctx, rate, user, call)
  {
    var p, sig := IssuedQuote(ctx, entries, user, asset, fj, now, response);
    var price := Price(ctx, p, now).value;
    ResponseIsRead(ctx, p, price, sig);
    rate, signed := RateOf(p.policy), SignedPreimage(ctx, p, price).value;
    call := ClientFeeCall(asset, nonce, fj, response).value;
  }

  /**
    End to end, amount quotes: whatever quote the client gets, the contract accepts the client's call from that user for
    exactly the gas settings that cost the quoted amount and the anchor times between `validUntil - 3600` and
    `validUntil`, as long as `validUntil` fits in 64 bits. The client sends the settings it computed the amount from.
  */
  lemma AmountQuoteIsAccepted(ctx: Context, entries: Entries, user: Field, asset: Field, nonce: Field, fj: nat,
                              now: nat, response: QuoteResponse, gas: Gas, anchor: nat)
    requires ctx.Sound() && !ctx.rateQuotes
    requires GotQuote(ctx, entries, user, asset, fj, now, response)
    ensures var call := ClientFeeCall(asset, nonce, fj, response);
            && call.Some?
            && (FeeEntrypointAccepts(ctx.scheme, ctx.fpc, user, call.value, gas, anchor) <==>
                  && ComputeFjAmount(gas) == fj
                  && now + ctx.validitySeconds <= 0xFFFF_FFFF_FFFF_FFFF
                  && now + ctx.validitySeconds - 3600 <= anchor <= now + ctx.validitySeconds)
  {
    var rate, signed, call := QuotedCall(ctx, entries, user, asset, nonce, fj, now, response);
    hide GotQuote, Priced, ClientFeeCall, QuotePreimage, RateQuotePreimage, MaxGasCost, ComputeFjAmount;
    if Fits(call.fj, call.aa, call.validUntil, call.sig) {
      ContractRebuilds(ctx.fpc, user, call);
      GasAmountsAgree(gas);
      SignedCallPasses(ctx.scheme, signed, ctx.fpc, user, call, gas, anchor);
    }
  }

  /**
    The cap on the configured validity is exactly what makes a quote usable at the time it was made; under the cap it
    stays usable until it expires.
  */
  lemma FreshQuoteUsableExactlyUnderCap(ctx: Context, entries: Entries, user: Field, asset: Field, nonce: Field,
                                        fj: nat, now: nat, response: QuoteResponse, gas: Gas, anchor: nat)
    requires ctx.Sound() && !ctx.rateQuotes && now + ctx.validitySeconds <= 0xFFFF_FFFF_FFFF_FFFF
    requires GotQuote(ctx, entries, user, asset, fj, now, response)
    requires now <= anchor <= now + ctx.validitySeconds
    ensures var call := ClientFeeCall(asset, nonce, fj, response);
            && call.Some?
            && (FeeEntrypointAccepts(ctx.scheme, ctx.fpc, user, call.value, gas, now) <==>
                  ComputeFjAmount(gas) == fj && ctx.validitySeconds <= 3600)
            && (ComputeFjAmount(gas) == fj && ctx.validitySeconds <= 3600 ==>
                  FeeEntrypointAccepts(ctx.scheme, ctx.fpc, user, call.value, gas, anchor))
  {
    hide FeeEntrypointAccepts, ClientFeeCall, GotQuote;
    AmountQuoteIsAccepted(ctx, entries, user, asset, nonce, fj, now, response, gas, now);
    AmountQuoteIsAccepted(ctx, entries, user, asset, nonce, fj, now, response, gas, anchor);
  }

  /**
    What the contract takes a quote for, in either format: only in the time window, only at the fee quoted, only at the
    quoting contract, only from the quoted user, and a rate quote only where the final rate is one and written with the
    amount itself. This assumes that hash and signature bind `signed`, the list the operator signed, against the one the
    contract rebuilds.
  */
  lemma QuoteIsAcceptedExactlyWhen(ctx: Context, entries: Entries, user: Field, asset: Field, nonce: Field, fj: nat,
                                   now: nat, response: QuoteResponse, gas: Gas, anchor: nat, fpc: Field, sender: Field)
    returns (rate: Pricing.Rate, signed: seq<Field>, call: FeeCall)
    requires ctx.Sound() && GotQuote(ctx, entries, user, asset, fj, now, response)
    ensures Priced(ctx, entries, user, asset, fj)
    ensures rate == RateOf(entries[ctx.addresses.Print(asset)])
    ensures ClientFeeCall(asset, nonce, fj, response) == Some(call)
    ensures call.fj == fj && call.aa == ChargeOf(ctx, entries, asset, call.fj)
    ensures call.validUntil == now + ctx.validitySeconds
    ensures Some(signed) == QuotedList(ctx, rate, user, call)
    ensures ctx.scheme.Sign(ctx.scheme.Hash(signed)) == Some(call.sig)
    ensures call.validUntil <= U64_MAX ==>
              && Fits(call.fj, call.aa, call.validUntil, call.sig)
              && (ctx.scheme.Binds(signed, FeePreimage(fpc, sender, call)) ==>
                    (FeeEntrypointAccepts(ctx.scheme, fpc, sender, call, gas, anchor) <==>
                       && ComputeFjAmount(gas) == fj && InWindow(anchor, call.validUntil)
                       && fpc == ctx.fpc && sender == user
                       && (ctx.rateQuotes ==> Pricing.AtPar(rate, call.fj))))
  {
    rate, signed, call := QuotedCall(ctx, entries, user, asset, nonce, fj, now, response);
    hide GotQuote, ClientFeeCall, InWindow, MaxGasCost, ComputeFjAmount;
    if Fits(call.fj, call.aa, call.validUntil, call.sig) {
      GasAmountsAgree(gas);
      SignedCallPasses(ctx.scheme, signed, fpc, sender, call, gas, anchor);
      Pricing.ReadsAsAmountsExactlyAtPar(rate, call.fj);
      QuotedListRebuilt(ctx, rate, user, call, fpc, sender);
      hide QuotedList, FeePreimage, FeeEntrypointAccepts, Pricing.AtPar;
    }
  }

  /** The contract rebuilds the operator's list exactly where everything signed agrees. */
  lemma QuotedListRebuilt(ctx: Context, rate: Pricing.Rate, user: Field, call: FeeCall, fpc: Field, sender: Field)
    requires Fits(call.fj, call.aa, call.validUntil, call.sig) && QuotedList(ctx, rate, user, call).Some?
    ensures QuotedList(ctx, rate, user, call) == Some(FeePreimage(fpc, sender, call)) <==>
              && fpc == ctx.fpc && sender == user
              && (ctx.rateQuotes ==> Pricing.RateNum(rate) == call.fj && Pricing.RateDen(rate) == call.aa)
  {
    ContractRebuilds(fpc, sender, call);
    hide FeePreimage, QuotePreimage, RateQuotePreimage;
    var rebuilt := Quote(fpc, call.asset, call.fj, call.aa, call.validUntil, sender);
    if ctx.rateQuotes {
      RateReadsAsAmounts(RateQuote(ctx.fpc, call.asset, Pricing.RateNum(rate), Pricing.RateDen(rate), call.validUntil,
                                   user), rebuilt);
    } else if QuotedList(ctx, rate, user, call) == Some(FeePreimage(fpc, sender, call)) {
      QuotePreimageInjective(rebuilt, Quote(ctx.fpc, call.asset, call.fj, call.aa, call.validUntil, user));
    }
  }

  // -------- cold start

  ghost predicate GotColdStartQuote(ctx: Context, entries: Entries, user: Field, asset: Field, fj: nat,
                                    claimAmount: nat, secretHash: Field, now: nat, response: ColdStartQuoteResponse)
  {
    && AllGood(ctx.addresses, entries)
    && ColdStartDecision(ctx, entries, true,
                         ClientColdStartRequest(ctx, user, asset, fj, claimAmount, secretHash), now) == Issued(response)
  }

  lemma ClaimIsRead(ctx: Context, user: Field, asset: Field, fj: nat, claimAmount: nat, secretHash: Field)
    requires ctx.Sound()
    ensures var req := ClientColdStartRequest(ctx, user, asset, fj, claimAmount, secretHash);
            && req.base == ClientRequest(ctx, user, asset, fj)
            && ParseAmount(req.claimAmount) ==
               (if 1 <= claimAmount <= Pricing.U128_MAX then Some(claimAmount) else None)
            && ParseField(ctx.fields, req.claimSecretHash) == Some(secretHash)
  {
    AmountRoundTrip(claimAmount);
    ctx.fields.PrintedIsTrimmed(secretHash);
  }

  ghost predicate Covers(ctx: Context, entries: Entries, asset: Field, fj: nat, claimAmount: nat)
    requires AllGood(ctx.addresses, entries) && ctx.addresses.Print(asset) in entries
  {
    ChargeOf(ctx, entries, asset, fj) <= claimAmount <= Pricing.U128_MAX
  }

  /** A cold-start request is refused exactly where it cannot be priced or the claim does not cover the charge. */
  lemma ColdStartAnsweredExactlyWhen(ctx: Context, entries: Entries, authorised: bool, user: Field, asset: Field,
                                     fj: nat, claimAmount: nat, secretHash: Field, now: nat)
    requires ctx.Sound() && AllGood(ctx.addresses, entries)
    ensures var req := ClientColdStartRequest(ctx, user, asset, fj, claimAmount, secretHash);
            var reply := ColdStartDecision(ctx, entries, authorised, req, now);
            && (reply.Unauthorised? <==> !authorised)
            && (reply.Refused? <==>
                  && authorised
                  && !(Priced(ctx, entries, user, asset, fj) && Covers(ctx, entries, asset, fj, claimAmount)))
  {
    PricedExactlyWhen(ctx, entries, user, asset, fj, now);
    ClaimIsRead(ctx, user, asset, fj, claimAmount, secretHash);
    hide ParseQuoteRequest, ParseAmount, ParseField, Price, Signature, BuildQuoteResponse, ClientColdStartRequest;
    hide AllGood, Context.Sound, Wire.Trim, Good, ChargeOf, ColdStartQuotePreimage, AmountQuote;
  }

  /**
    End to end, cold start: the contract accepts the client's cold-start call for exactly the gas settings that cost the
    quoted amount and the anchor times in the window, whatever the quote format, and the claim covers the operator's
    charge.
  */
  lemma ColdStartQuoteIsAccepted(ctx: Context, entries: Entries, user: Field, asset: Field, fj: nat, claimAmount: nat,
                                 secretHash: Field, now: nat, response: ColdStartQuoteResponse, gas: Gas, anchor: nat)
    requires ctx.Sound()
    requires GotColdStartQuote(ctx, entries, user, asset, fj, claimAmount, secretHash, now, response)
    ensures var call := ClientColdStartCall(user, asset, claimAmount, secretHash, fj, response);
            && call.Some?
            && Priced(ctx, entries, user, asset, fj)
            && call.value.aa == ChargeOf(ctx, entries, asset, fj)
            && call.value.aa <= claimAmount
            && (ColdStartEntrypointAccepts(ctx.scheme, ctx.fpc, call.value, gas, anchor) <==>
                  && ComputeFjAmount(gas) == fj && now + ctx.validitySeconds <= 0xFFFF_FFFF_FFFF_FFFF
                  && now + ctx.validitySeconds - 3600 <= anchor <= now + ctx.validitySeconds)
  {
    PricedExactlyWhen(ctx, entries, user, asset, fj, now);
    ClientRequestIsRead(ctx, entries, user, asset, fj);
    ClaimIsRead(ctx, user, asset, fj, claimAmount, secretHash);
    GasAmountsAgree(gas);
    var p := Parsed(user, asset, fj, entries[ctx.addresses.Print(asset)]);
    var price := Price(ctx, p, now).value;
    var quote := ColdStartQuote(AmountQuote(ctx, p, price), claimAmount, secretHash);
    var signed := ColdStartQuotePreimage(quote).value;
    assert ctx.scheme.SignsWell(ctx.scheme.Hash(signed));
    var sig := ctx.scheme.Sign(ctx.scheme.Hash(signed)).value;
    ResponseIsRead(ctx.(rateQuotes := false), p, price, sig);
    var call := ClientColdStartCall(user, asset, claimAmount, secretHash, fj, response).value;
    if Fits(call.fj, call.aa, call.validUntil, call.sig) {
      assert signed == ColdStartPreimage(ctx.fpc, call);
    }
  }
}
