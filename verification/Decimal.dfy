/**
  Decimal text of integers: what `bigint.toString()` prints, what `BigInt(text)` reads back, and the
  two patterns under which the services accept such text.
*/
module Decimal {

  predicate IsDigit(c: char) {
    '0' <= c <= '9'
  }

  predicate AllDigits(s: string) {
    forall i | 0 <= i < |s| :: IsDigit(s[i])
  }

  function DigitValue(c: char): nat
    requires IsDigit(c)
  {
    c as int - '0' as int
  }

  function DigitChar(d: nat): char
    requires d < 10
  {
    (d + '0' as int) as char
  }

  /** `BigInt(s)` on a string of decimal digits. */
  function Value(s: string): nat
    requires AllDigits(s)
  {
    if s == "" then 0 else 10 * Value(s[..|s| - 1]) + DigitValue(s[|s| - 1])
  }

  /** `n.toString()` of a non-negative bigint. */
  function Print(n: nat): string {
    if n < 10 then [DigitChar(n)] else Print(n / 10) + [DigitChar(n % 10)]
  }

  /** `n.toString()` of any bigint. */
  function PrintInt(n: int): string {
    if n < 0 then "-" + Print(-n) else Print(n)
  }

  /** The pattern `^(0|[1-9][0-9]*)$`. */
  predicate Canonical(s: string) {
    || s == "0"
    || (|s| > 0 && '1' <= s[0] <= '9' && AllDigits(s[1..]))
  }

  function Pow10(k: nat): nat {
    if k == 0 then 1 else 10 * Pow10(k - 1)
  }

  lemma CanonicalIsDigits(s: string)
    requires Canonical(s)
    ensures AllDigits(s) && s != ""
  {
    if s != "0" {
      forall i | 0 <= i < |s| ensures IsDigit(s[i]) {
        assert i > 0 ==> s[i] == s[1..][i - 1];
      }
    }
  }

  /** Decimal text is positional: a further digit counts for itself and the text before it ten times. */
  lemma Positional(s: string, c: char)
    requires AllDigits(s) && '0' <= c <= '9'
    ensures AllDigits("") && Value("") == 0
    ensures AllDigits(s + [c]) && Value(s + [c]) == 10 * Value(s) + (c as int - 48)
  {
    assert (s + [c])[..|s|] == s;
  }

  /** Printing gives canonical text that reads back as the number printed. */
  lemma {:induction false} PrintThenRead(n: nat)
    ensures Canonical(Print(n)) && AllDigits(Print(n))
    ensures Value(Print(n)) == n
    ensures n > 0 ==> Print(n)[0] != '0'
  {
    if n >= 10 {
      PrintThenRead(n / 10);
      var p, s := Print(n / 10), Print(n);
      assert s[..|s| - 1] == p;
      assert s[1..] == p[1..] + [DigitChar(n % 10)];
      assert AllDigits(p[1..]);
    } else {
      var s := Print(n);
      assert s[..|s| - 1] == "";
      assert s[1..] == "";
    }
  }

  /** Canonical text is the only text that prints its own value: the pattern and the naturals are in bijection. */
  lemma {:induction false} ReadThenPrint(s: string)
    requires Canonical(s)
    ensures AllDigits(s) && Print(Value(s)) == s
    ensures s[0] != '0' ==> Value(s) > 0
  {
    CanonicalIsDigits(s);
    var p, d := s[..|s| - 1], DigitValue(s[|s| - 1]);
    assert s == p + [s[|s| - 1]];
    if |s| == 1 {
      assert Value(p) == 0;
    } else {
      assert p[1..] == s[1..][..|s| - 2];
      ReadThenPrint(p);
      assert Value(s) / 10 == Value(p) && Value(s) % 10 == d;
    }
  }

  /** Two canonical texts of one value are the same text. */
  lemma CanonicalInjective(s: string, t: string)
    requires Canonical(s) && Canonical(t) && AllDigits(s) && AllDigits(t)
    requires Value(s) == Value(t)
    ensures s == t
  {
    ReadThenPrint(s);
    ReadThenPrint(t);
  }

  /** Only non-negative integers print as canonical text. */
  lemma PrintIntCanonical(n: int)
    ensures Canonical(PrintInt(n)) <==> n >= 0
  {
    if n >= 0 {
      PrintThenRead(n);
    } else {
      assert PrintInt(n)[0] == '-';
    }
  }

  /** A number below 10^k prints in at most k characters. */
  lemma {:induction false} PrintLength(n: nat, k: nat)
    requires k > 0 && n < Pow10(k)
    ensures |Print(n)| <= k
  {
    assert k == 1 ==> Pow10(k) == 10;
    if n >= 10 {
      PrintLength(n / 10, k - 1);
    }
  }
}
