/**
  Exact-fraction pricing of a quote (services/attestation/src/config.ts, server.ts): the final rate, the ceiling
  division and the 128-bit bound. Every property follows from one characterisation of the ceiling division.
*/
module Pricing {
  import opened Division
  import opened Outcomes

  const U128_MAX: nat := 0xFFFF_FFFF_FFFF_FFFF_FFFF_FFFF_FFFF_FFFF
  const BIPS: nat := 10000

  /** The rate part of an asset policy. */
  datatype Rate = Rate(num: nat, den: nat, feeBips: nat)

  predicate ValidRate(p: Rate) {
    p.num > 0 && p.den > 0 && p.feeBips <= BIPS
  }

  function RateNum(p: Rate): nat {
    p.num * (BIPS + p.feeBips)
  }

  function RateDen(p: Rate): nat {
    p.den * BIPS
  }

  lemma RateDenPositive(p: Rate)
    requires ValidRate(p)
    ensures RateDen(p) > 0 && RateNum(p) > 0
  {
  }

  /** What a quote for `fj` units of Fee Juice charges in the accepted asset. */
  function Charge(p: Rate, fj: nat): nat
    requires ValidRate(p)
  {
    CeilDiv(fj * RateNum(p), RateDen(p))
  }

  datatype Pricing = Pricing(rateNum: nat, rateDen: nat, validUntil: nat, aaPaymentAmount: nat)

  /** The whole pricing step: no price where the charge is zero or does not fit in 128 bits. */
  function ComputeQuotePricing(p: Rate, fj: nat, nowSeconds: nat, validitySeconds: nat): Option<Pricing>
    requires ValidRate(p)
  {
    var charge := Charge(p, fj);
    if charge > U128_MAX || charge <= 0 then None
    else Some(Pricing(RateNum(p), RateDen(p), nowSeconds + validitySeconds, charge))
  }

  /**
    The charge is the least amount worth fj * num / den plus the operator's margin: it never falls short of the margin
    and overcharges by less than one unit.
  */
  lemma ChargeIsLeastCover(p: Rate, fj: nat, x: int)
    requires ValidRate(p)
    ensures Charge(p, fj) <= x <==> fj * p.num * (BIPS + p.feeBips) <= x * (p.den * BIPS)
  {
    CeilDivIsLeast(fj * RateNum(p), RateDen(p), x);
    assert fj * RateNum(p) == fj * p.num * (BIPS + p.feeBips);
  }

  /** More Fee Juice, a higher rate or a higher margin never costs less. */
  lemma ChargeMonotone(p: Rate, fj: nat, p': Rate, fj': nat)
    requires ValidRate(p) && ValidRate(p')
    requires fj <= fj' && p.num <= p'.num && p.feeBips <= p'.feeBips && p.den == p'.den
    ensures Charge(p, fj) <= Charge(p', fj')
  {
    MulMonotone(p.num, BIPS + p.feeBips, p'.num, BIPS + p'.feeBips);
    MulMonotone(fj, RateNum(p), fj', RateNum(p'));
    CeilDivMonotone(fj * RateNum(p), fj' * RateNum(p'), RateDen(p));
  }

  /** A larger denominator never costs more. */
  lemma ChargeAntitone(p: Rate, den: nat, fj: nat)
    requires ValidRate(p) && p.den <= den
    ensures Charge(p.(den := den), fj) <= Charge(p, fj)
  {
    var p' := p.(den := den);
    CeilDivIsLeast(fj * RateNum(p), RateDen(p), Charge(p, fj));
    MulMonotone(Charge(p, fj), RateDen(p), Charge(p, fj), RateDen(p'));
    CeilDivIsLeast(fj * RateNum(p'), RateDen(p'), Charge(p, fj));
  }

  /** Scaling the fraction changes nothing. */
  lemma ChargeScaleInvariant(p: Rate, k: nat, fj: nat)
    requires ValidRate(p) && k > 0
    ensures k * p.num > 0 && k * p.den > 0
    ensures Charge(Rate(k * p.num, k * p.den, p.feeBips), fj) == Charge(p, fj)
  {
    MulMonotone(1, 1, k, p.num);
    MulMonotone(1, 1, k, p.den);
    var p' := Rate(k * p.num, k * p.den, p.feeBips);
    ScaledCover(p, k, fj, Charge(p, fj));
    ScaledCover(p, k, fj, Charge(p', fj));
    CeilDivIsLeast(fj * RateNum(p), RateDen(p), Charge(p, fj));
    CeilDivIsLeast(fj * RateNum(p), RateDen(p), Charge(p', fj));
    CeilDivIsLeast(fj * RateNum(p'), RateDen(p'), Charge(p, fj));
    CeilDivIsLeast(fj * RateNum(p'), RateDen(p'), Charge(p', fj));
  }

  lemma ScaledCover(p: Rate, k: nat, fj: nat, x: nat)
    requires k > 0
    ensures var p' := Rate(k * p.num, k * p.den, p.feeBips);
            fj * RateNum(p') <= x * RateDen(p') <==> fj * RateNum(p) <= x * RateDen(p)
  {
    var p' := Rate(k * p.num, k * p.den, p.feeBips);
    var a, b := fj * RateNum(p), x * RateDen(p);
    assert RateNum(p') == k * RateNum(p) && RateDen(p') == k * RateDen(p);
    assert fj * RateNum(p') == k * a && x * RateDen(p') == k * b;
    CompareScaled(k, a, b);
  }

  /** Splitting an amount in two never lowers the total and raises it by at most one unit. */
  lemma ChargeSplit(p: Rate, x: nat, y: nat)
    requires ValidRate(p)
    ensures Charge(p, x + y) <= Charge(p, x) + Charge(p, y) <= Charge(p, x + y) + 1
  {
    assert (x + y) * RateNum(p) == x * RateNum(p) + y * RateNum(p);
    CeilDivSplit(x * RateNum(p), y * RateNum(p), RateDen(p));
  }

  /** The final rate is exactly one, written with `fj` itself as numerator and denominator. */
  predicate AtPar(p: Rate, fj: nat) {
    RateNum(p) == fj && RateDen(p) == fj
  }

  /** A rate reads as an amount and its charge exactly if it is at par with the amount. */
  lemma ReadsAsAmountsExactlyAtPar(p: Rate, fj: nat)
    requires ValidRate(p)
    ensures RateNum(p) == fj && RateDen(p) == Charge(p, fj) <==> AtPar(p, fj)
  {
    var d: int := RateDen(p);
    if RateNum(p) == fj {
      CeilDivIsLeast(fj * fj, d, d);
      CeilDivIsLeast(fj * fj, d, d - 1);
      SquareBetween(fj, d);
    }
  }

  /** The square of `n` lies above (d - 1) * d and up to d * d only for d = n. */
  lemma SquareBetween(n: nat, d: nat)
    requires d > 0
    ensures (d - 1) * d < n * n <= d * d <==> n == d
  {
    if n < d {
      MulMonotone(n, n, d - 1, d);
    } else if d < n {
      MulMonotone(d + 1, d + 1, n, n);
    }
  }

  /** A quote is refused exactly for no Fee Juice at all or a charge above the 128-bit maximum. */
  lemma RefusedExactlyOutOfRange(p: Rate, fj: nat, nowSeconds: nat, validitySeconds: nat)
    requires ValidRate(p)
    ensures ComputeQuotePricing(p, fj, nowSeconds, validitySeconds).None? <==>
              fj == 0 || fj * p.num * (BIPS + p.feeBips) > U128_MAX * (p.den * BIPS)
  {
    ChargeIsLeastCover(p, fj, U128_MAX);
    CeilDivIsLeast(fj * RateNum(p), RateDen(p), 0);
    RateDenPositive(p);
    if fj > 0 {
      MulMonotone(1, 1, fj, RateNum(p));
    }
  }
}
