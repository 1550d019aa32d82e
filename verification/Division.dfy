/** Multiplication and division of integers: each quotient is characterised by what it is the least or greatest of. */
module Division {

  function CeilDiv(a: nat, b: nat): nat
    requires b > 0
  {
    (a + b - 1) / b
  }

  /** The ceiling of a / b is the least x with x * b >= a. */
  lemma CeilDivIsLeast(a: nat, b: nat, x: int)
    requires b > 0
    ensures CeilDiv(a, b) <= x <==> a <= x * b
  {
    var c, m := CeilDiv(a, b), (a + b - 1) % b;
    assert a + b - 1 == b * c + m;
    assert (x - c) * b == x * b - b * c;
    assert c <= x ==> (x - c) * b >= 0;
    assert c > x ==> (c - x - 1) * b >= 0;
    assert (c - x - 1) * b == b * c - x * b - b;
  }

  /** The floor of a / b is the greatest n with n * b <= a. */
  lemma QuotientIsGreatest(a: nat, b: nat, n: nat)
    requires b > 0
    ensures n <= a / b <==> n * b <= a
  {
    var q: int, m: int := a / b, a % b;
    assert a == q * b + m && m < b;
    var x := q + 1 - n;
    assert x * b == q * b + b - n * b;
    assert (q - n) * b == q * b - n * b;
    assert n <= q ==> (q - n) * b >= 0;
    if n * b <= a {
      PositiveFactor(x, b);
    }
  }

  lemma PositiveFactor(x: int, b: nat)
    requires x * b > 0
    ensures x > 0
  {
    assert x <= 0 ==> (-x) * b >= 0;
    assert (-x) * b == -(x * b);
  }

  lemma CeilDivMonotone(a: nat, a': nat, b: nat)
    requires b > 0 && a <= a'
    ensures CeilDiv(a, b) <= CeilDiv(a', b)
  {
    CeilDivIsLeast(a, b, CeilDiv(a', b));
    CeilDivIsLeast(a', b, CeilDiv(a', b));
  }

  lemma MulMonotone(a: nat, b: nat, c: nat, d: nat)
    requires a <= c && b <= d
    ensures a * b <= c * d
  {
    assert (c - a) * b >= 0 && c * (d - b) >= 0;
    assert (c - a) * b == c * b - a * b && c * (d - b) == c * d - c * b;
  }

  lemma CompareScaled(k: nat, a: int, b: int)
    requires k > 0
    ensures k * a <= k * b <==> a <= b
  {
    assert a <= b ==> k * (b - a) >= 0;
    assert a > b ==> k * (a - b) >= 1;
    assert k * (b - a) == k * b - k * a && k * (a - b) == k * a - k * b;
  }

  lemma CeilDivSplit(a: nat, b: nat, d: nat)
    requires d > 0
    ensures CeilDiv(a + b, d) <= CeilDiv(a, d) + CeilDiv(b, d) <= CeilDiv(a + b, d) + 1
  {
    var x: int, y: int := CeilDiv(a, d), CeilDiv(b, d);
    CeilDivIsLeast(a, d, x);
    CeilDivIsLeast(b, d, y);
    CeilDivIsLeast(a + b, d, x + y);
    assert (x + y) * d == x * d + y * d;
    CeilDivIsLeast(a, d, x - 1);
    CeilDivIsLeast(b, d, y - 1);
    CeilDivIsLeast(a + b, d, x + y - 2);
    assert (x - 1) * d + (y - 1) * d == (x + y - 2) * d;
  }
}
