/**
  Text on the wire between the client and the attestation service: the decimal request fields
  (services/attestation/src/request-schemas.ts), the integers the client reads back and the hex signature
  (sdk/src/payment-method.ts, services/attestation/src/index.ts).
*/
module Wire {
  import opened Decimal
  import opened Outcomes
  import Pricing

  const MAX_DIGITS := 39

  // -------- trimming

  /** White space and line ends, as `trim` strips them. */
  predicate IsSpace(c: char) {
    var u := c as int;
    || 9 <= u <= 13 || u == 0x20 || u == 0xA0 || u == 0x1680 || 0x2000 <= u <= 0x200A
    || u == 0x2028 || u == 0x2029 || u == 0x202F || u == 0x205F || u == 0x3000 || u == 0xFEFF
  }

  predicate Blank(s: string) {
    forall i | 0 <= i < |s| :: IsSpace(s[i])
  }

  function TrimStart(s: string): string {
    if s != "" && IsSpace(s[0]) then TrimStart(s[1..]) else s
  }

  function TrimEnd(s: string): string {
    if s != "" && IsSpace(s[|s| - 1]) then TrimEnd(s[..|s| - 1]) else s
  }

  function Trim(s: string): string {
    TrimEnd(TrimStart(s))
  }

  /** Nothing left to trim. */
  predicate Trimmed(s: string) {
    s == "" || (!IsSpace(s[0]) && !IsSpace(s[|s| - 1]))
  }

  lemma {:induction false} TrimStartDrops(s: string) returns (before: string)
    ensures Blank(before) && s == before + TrimStart(s)
    ensures TrimStart(s) == "" || !IsSpace(TrimStart(s)[0])
  {
    if s != "" && IsSpace(s[0]) {
      before := TrimStartDrops(s[1..]);
      before := [s[0]] + before;
    } else {
      before := "";
    }
  }

  lemma {:induction false} TrimEndDrops(s: string) returns (after: string)
    ensures Blank(after) && s == TrimEnd(s) + after
    ensures TrimEnd(s) == "" || !IsSpace(TrimEnd(s)[|TrimEnd(s)| - 1])
  {
    if s != "" && IsSpace(s[|s| - 1]) {
      after := TrimEndDrops(s[..|s| - 1]);
      after := after + [s[|s| - 1]];
    } else {
      after := "";
    }
  }

  /** Trimming removes blanks at both ends and leaves none there. */
  lemma TrimDrops(s: string) returns (before: string, after: string)
    ensures Blank(before) && Blank(after) && s == before + Trim(s) + after && Trimmed(Trim(s))
  {
    before := TrimStartDrops(s);
    after := TrimEndDrops(TrimStart(s));
    if Trim(s) != "" {
      assert Trim(s)[0] == TrimStart(s)[0];
    }
  }

  lemma {:induction false} TrimStartSkips(before: string, s: string)
    requires Blank(before) && (s == "" || !IsSpace(s[0]))
    ensures TrimStart(before + s) == s
  {
    if before == "" {
      assert before + s == s;
    } else {
      assert (before + s)[1..] == before[1..] + s;
      TrimStartSkips(before[1..], s);
    }
  }

  lemma {:induction false} TrimEndSkips(s: string, after: string)
    requires Blank(after) && (s == "" || !IsSpace(s[|s| - 1]))
    ensures TrimEnd(s + after) == s
  {
    if after == "" {
      assert s + after == s;
    } else {
      assert (s + after)[..|s + after| - 1] == s + after[..|after| - 1];
      TrimEndSkips(s, after[..|after| - 1]);
    }
  }

  /** Only one trimmed text is left when blanks are taken off both ends. */
  lemma TrimFinds(before: string, t: string, after: string)
    requires Blank(before) && Blank(after) && Trimmed(t) && t != ""
    ensures Trim(before + t + after) == t
  {
    assert before + t + after == before + (t + after);
    TrimStartSkips(before, t + after);
    TrimEndSkips(t, after);
  }

  /** Trimming leaves nothing exactly of blanks. */
  lemma TrimEmptiesBlanks(s: string)
    ensures Trim(s) == "" <==> Blank(s)
  {
    var before, after := TrimDrops(s);
    if Blank(s) {
      TrimStartSkips(s, "");
      assert s + "" == s;
    }
    assert Trim(s) == "" ==> s == before + after;
  }

  /** The white space of the language: five controls, seventeen spaces, two separators and the byte order mark. */
  lemma SpacesAre(c: char)
    ensures IsSpace(c) <==>
              c as int in {9, 10, 11, 12, 13, 32, 160, 5760, 8192, 8193, 8194, 8195, 8196, 8197, 8198, 8199, 8200, 8201,
                           8202, 8232, 8233, 8239, 8287, 12288, 65279}
  {
  }

  // -------- decimal request fields

  /** The validator of `fj_amount` and `claim_amount`: `None` is a refused request. */
  function ParseAmount(field: Option<string>): Option<nat> {
    match field
    case None => None
    case Some(text) =>
      var trimmed := Trim(text);
      if trimmed == "" || !AllDigits(trimmed) || |trimmed| > MAX_DIGITS then None
      else
        var parsed := Value(trimmed);
        if parsed <= 0 || parsed > Pricing.U128_MAX then None else Some(parsed)
  }

  predicate Zeros(s: string) {
    forall i | 0 <= i < |s| :: s[i] == '0'
  }

  /** A digit text is the printed value behind some zeros. */
  lemma {:induction false} DigitsArePadding(s: string) returns (zeros: string)
    requires AllDigits(s) && Value(s) > 0
    ensures Zeros(zeros) && s == zeros + Print(Value(s))
  {
    var p, d := s[..|s| - 1], DigitValue(s[|s| - 1]);
    assert s == p + [s[|s| - 1]];
    if Value(p) == 0 {
      AllZeros(p);
      zeros := p;
    } else {
      zeros := DigitsArePadding(p);
      assert Value(s) / 10 == Value(p) && Value(s) % 10 == d;
    }
  }

  lemma {:induction false} AllZeros(s: string)
    requires AllDigits(s)
    ensures Value(s) == 0 <==> Zeros(s)
  {
    if s != "" {
      var p := s[..|s| - 1];
      assert s == p + [s[|s| - 1]];
      AllZeros(p);
      assert Value(s) == 0 <==> Value(p) == 0 && s[|s| - 1] == '0';
      assert forall i | 0 <= i < |p| :: p[i] == s[i];
    }
  }

  lemma {:induction false} PaddingKeepsValue(zeros: string, s: string)
    requires Zeros(zeros) && AllDigits(s)
    ensures AllDigits(zeros + s) && Value(zeros + s) == Value(s)
  {
    if s == "" {
      assert zeros + s == zeros;
      assert AllDigits(zeros);
      AllZeros(zeros);
    } else {
      assert (zeros + s)[..|zeros + s| - 1] == zeros + s[..|s| - 1];
      PaddingKeepsValue(zeros, s[..|s| - 1]);
    }
  }

  /** How a number may be written in a request: up to 39 digits, leading zeros included, with blanks around. */
  predicate Writes(before: string, zeros: string, n: nat, after: string) {
    Blank(before) && Zeros(zeros) && |zeros| + |Print(n)| <= MAX_DIGITS && Blank(after)
  }

  lemma DigitsAreTrimmed(s: string)
    requires AllDigits(s)
    ensures Trimmed(s)
  {
  }

  /** Every text that writes a number between 1 and 2^128 - 1 is read as that number. */
  lemma WrittenIsParsed(before: string, zeros: string, n: nat, after: string)
    requires 1 <= n <= Pricing.U128_MAX && Writes(before, zeros, n, after)
    ensures ParseAmount(Some(before + (zeros + Print(n)) + after)) == Some(n)
  {
    PrintThenRead(n);
    PaddingKeepsValue(zeros, Print(n));
    DigitsAreTrimmed(zeros + Print(n));
    TrimFinds(before, zeros + Print(n), after);
  }

  /** Nothing else is read: whatever is accepted writes the number it is read as, between 1 and 2^128 - 1. */
  lemma ParsedIsWritten(text: string) returns (before: string, zeros: string, after: string)
    requires ParseAmount(Some(text)).Some?
    ensures var n := ParseAmount(Some(text)).value;
            && 1 <= n <= Pricing.U128_MAX && Writes(before, zeros, n, after)
            && text == before + (zeros + Print(n)) + after
  {
    before, after := TrimDrops(text);
    zeros := DigitsArePadding(Trim(text));
  }

  /** 2^128 - 1 has 39 digits. */
  lemma U128Digits()
    ensures Pow10(38) <= Pricing.U128_MAX < Pow10(39)
  {
    assert Pow10(8) == 1_0000_0000;
    assert Pow10(16) == 1_0000_0000_0000_0000;
    assert Pow10(24) == 1_0000_0000_0000_0000_0000_0000;
    assert Pow10(32) == 1_0000_0000_0000_0000_0000_0000_0000_0000;
    assert Pow10(38) == 100_0000_0000_0000_0000_0000_0000_0000_0000_0000;
  }

  /** What the client prints is accepted exactly for the amounts between 1 and 2^128 - 1, and read as printed. */
  lemma AmountRoundTrip(n: nat)
    ensures ParseAmount(Some(Print(n))) == if 1 <= n <= Pricing.U128_MAX then Some(n) else None
  {
    PrintThenRead(n);
    DigitsAreTrimmed(Print(n));
    TrimFinds("", Print(n), "");
    assert "" + Print(n) + "" == Print(n);
    if n <= Pricing.U128_MAX {
      U128Digits();
      PrintLength(n, 39);
    }
  }

  // -------- integers the client reads back

  /** `BigInt(text)` on decimal text: blanks around it, an optional sign, and nothing at all counts as zero. */
  function ReadBigInt(text: string): Option<int> {
    var t := Trim(text);
    if t == "" then Some(0)
    else
      var body := if t[0] == '-' || t[0] == '+' then t[1..] else t;
      if body == "" || !AllDigits(body) then None
      else
        var magnitude: int := Value(body);
        Some(if t[0] == '-' then -magnitude else magnitude)
  }

  predicate WritesInteger(t: string, sign: string, digits: string, n: int) {
    && t == sign + digits && (sign == "" || sign == "-" || sign == "+")
    && digits != "" && AllDigits(digits)
    && n == if sign == "-" then -(Value(digits) as int) else Value(digits)
  }

  /** Exactly which texts are read as which integer: digits behind at most one sign, blanks around, or blanks alone. */
  lemma BigIntReadsExactly(text: string, n: int)
    ensures ReadBigInt(text) == Some(n) <==>
              (Blank(text) && n == 0) || exists sign, digits :: WritesInteger(Trim(text), sign, digits, n)
  {
    var t := Trim(text);
    TrimEmptiesBlanks(text);
    if ReadBigInt(text) == Some(n) && t != "" {
      if t[0] == '-' || t[0] == '+' {
        assert WritesInteger(t, t[..1], t[1..], n);
      } else {
        assert WritesInteger(t, "", t, n);
      }
    }
    if sign, digits :| WritesInteger(t, sign, digits, n) {
      assert sign != "" ==> t[0] == sign[0] && t[1..] == digits;
      assert sign == "" ==> t == digits && '0' <= t[0] <= '9';
    }
  }

  /** The client reads back every integer the service prints, negative ones included. */
  lemma BigIntRoundTrip(n: int)
    ensures ReadBigInt(PrintInt(n)) == Some(n)
  {
    var t := PrintInt(n);
    PrintThenRead(if n < 0 then -n else n);
    TrimFinds("", t, "");
    assert "" + t + "" == t;
    if n < 0 {
      assert t[1..] == Print(-n);
    }
  }

  // -------- hex signature bytes

  type Byte = b: nat | b < 256

  const HEX_DIGITS: string := "0123456789abcdef"

  /** The value of a hex digit in either case. */
  function HexValue(c: char): Option<nat> {
    if '0' <= c <= '9' then Some(c as int - '0' as int)
    else if 'a' <= c <= 'f' then Some(c as int - 'a' as int + 10)
    else if 'A' <= c <= 'F' then Some(c as int - 'A' as int + 10)
    else None
  }

  lemma HexDigitValue(d: nat)
    requires d < 16
    ensures HexValue(HEX_DIGITS[d]) == Some(d)
  {
    assert |HEX_DIGITS| == 16;
  }

  function PairText(b: Byte): (pair: string)
    ensures |pair| == 2
  {
    [HEX_DIGITS[b / 16], HEX_DIGITS[b % 16]]
  }

  /** `Buffer.from(bytes).toString("hex")` */
  function HexText(bytes: seq<Byte>): string {
    if bytes == [] then "" else PairText(bytes[0]) + HexText(bytes[1..])
  }

  /** The text starts with two hex digits. */
  predicate StartsWithByte(text: string) {
    |text| >= 2 && HexValue(text[0]).Some? && HexValue(text[1]).Some?
  }

  function FirstByte(text: string): (b: Byte)
    requires StartsWithByte(text)
  {
    HexValue(text[0]).value * 16 + HexValue(text[1]).value
  }

  /** `Buffer.from(text, "hex")`: stops in silence at the first pair that is not hex. */
  function HexBytes(text: string): seq<Byte> {
    if StartsWithByte(text) then [FirstByte(text)] + HexBytes(text[2..]) else []
  }

  /** The service's signature text. */
  function SignatureText(bytes: seq<Byte>): string {
    "0x" + HexText(bytes)
  }

  /** The client's reading of it: one leading `0x` is dropped. */
  function SignatureBytes(text: string): seq<Byte> {
    HexBytes(if |text| >= 2 && text[..2] == "0x" then text[2..] else text)
  }

  lemma PairIsRead(b: Byte, rest: string)
    ensures var text := PairText(b) + rest; StartsWithByte(text) && FirstByte(text) == b && text[2..] == rest
  {
    HexDigitValue(b / 16);
    HexDigitValue(b % 16);
  }

  /** Reading stops where the hex pairs end, whatever follows. */
  lemma {:induction false} HexStopsAtRest(bytes: seq<Byte>, rest: string)
    requires !StartsWithByte(rest)
    ensures HexBytes(HexText(bytes) + rest) == bytes
  {
    if bytes == [] {
      assert HexText(bytes) + rest == rest;
    } else {
      var tail := HexText(bytes[1..]) + rest;
      HexStopsAtRest(bytes[1..], rest);
      PairIsRead(bytes[0], tail);
      assert HexText(bytes) + rest == PairText(bytes[0]) + tail;
      hide PairText, StartsWithByte, FirstByte;
    }
  }

  /** Each byte is written as its high and its low digit, in lower case, behind the prefix. */
  lemma {:induction false} HexTextAt(bytes: seq<Byte>, i: nat)
    requires i < |bytes|
    ensures |HexText(bytes)| == 2 * |bytes|
    ensures HexText(bytes)[2 * i] == "0123456789abcdef"[bytes[i] / 16]
    ensures HexText(bytes)[2 * i + 1] == "0123456789abcdef"[bytes[i] % 16]
    ensures SignatureText(bytes)[..2] == "0x" && SignatureText(bytes)[2..] == HexText(bytes)
  {
    if i > 0 {
      HexTextAt(bytes[1..], i - 1);
    } else if |bytes| > 1 {
      HexTextAt(bytes[1..], 0);
    }
  }

  /** The client recovers exactly the signature bytes the service sent. */
  lemma SignatureRoundTrip(bytes: seq<Byte>)
    ensures SignatureBytes(SignatureText(bytes)) == bytes
  {
    assert SignatureText(bytes)[2..] == HexText(bytes) + "";
    HexStopsAtRest(bytes, "");
  }

  function LowerHex(c: char): char {
    if 'A' <= c <= 'F' then (c as int - 'A' as int + 'a' as int) as char else c
  }

  function LowerAll(s: string): (t: string)
    ensures |t| == |s|
  {
    seq(|s|, i requires 0 <= i < |s| => LowerHex(s[i]))
  }

  lemma PairIsText(text: string)
    requires StartsWithByte(text)
    ensures LowerAll(text[..2]) == PairText(FirstByte(text))
  {
    HexDigitOf(text[0]);
    HexDigitOf(text[1]);
    var hi, lo, b := HexValue(text[0]).value, HexValue(text[1]).value, FirstByte(text);
    assert b / 16 == hi && b % 16 == lo;
  }

  lemma LowerAllConcat(s: string, t: string)
    ensures LowerAll(s + t) == LowerAll(s) + LowerAll(t)
  {
  }

  /**
    Exactly what a text decodes to: the bytes whose hex text it starts with, up to case, where no further pair follows.
    A corrupted signature is therefore shortened rather than refused.
  */
  lemma {:induction false} HexDecodesExactly(text: string)
    ensures var k := 2 * |HexBytes(text)|;
            && k <= |text| && LowerAll(text[..k]) == HexText(HexBytes(text)) && !StartsWithByte(text[k..])
  {
    hide LowerAll, PairText, HexValue, FirstByte;
    if StartsWithByte(text) {
      var rest, bytes := text[2..], HexBytes(text[2..]);
      HexDecodesExactly(rest);
      PairIsText(text);
      var k := 2 * |bytes|;
      assert HexBytes(text) == [FirstByte(text)] + bytes;
      assert HexBytes(text)[1..] == bytes;
      assert HexText(HexBytes(text)) == PairText(FirstByte(text)) + HexText(bytes);
      hide HexText, HexBytes, StartsWithByte;
      assert text[k + 2..] == rest[k..];
      assert text[..k + 2] == text[..2] + rest[..k];
      LowerAllConcat(text[..2], rest[..k]);
    } else {
      assert text[0..] == text;
    }
  }

  lemma HexDigitOf(c: char)
    requires HexValue(c).Some?
    ensures HexValue(c).value < 16 && HEX_DIGITS[HexValue(c).value] == LowerHex(c)
  {
    var d := HexValue(c).value;
    HexDigitValue(d);
    assert d < 16 ==> HexValue(HEX_DIGITS[d]) == HexValue(LowerHex(c));
  }
}
