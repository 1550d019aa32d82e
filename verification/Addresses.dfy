/**
  Field elements and the text form of addresses. How the text is decoded is a parameter: only its round trip is used.
*/
module Addresses {
  import opened Outcomes
  import Wire

  /** The order of the BN254 scalar field, in which addresses and hashes live. */
  const MODULUS: nat := 0x30644e72e131a029b85045b68181585d2833e84879b9709143e1f593f0000001

  type Field = f: nat | f < MODULUS

  datatype Codec = Codec(decode: string -> Option<Field>, encode: Field -> string) {
    /** Printed text is read back, and trimming does not touch it. */
    ghost predicate Sound() {
      forall a: Field :: Reads(a)
    }

    predicate Reads(a: Field) {
      Parse(Print(a)) == Some(a) && Print(a) != "" && Wire.Trimmed(Print(a))
    }

    function Parse(text: string): Option<Field> {
      decode(text)
    }

    function Print(a: Field): string {
      encode(a)
    }

    /** The one text under which an address is stored; `None` where it does not parse. */
    function Normalise(text: string): Option<string> {
      match Parse(text)
      case None => None
      case Some(a) => Some(Print(a))
    }

    lemma NormaliseSettles(text: string)
      requires Sound() && Normalise(text).Some?
      ensures Normalise(Normalise(text).value) == Normalise(text)
    {
      assert Reads(Parse(text).value);
    }

    lemma PrintedIsTrimmed(a: Field)
      requires Sound()
      ensures Wire.Trim(Print(a)) == Print(a) && Print(a) != "" && Parse(Print(a)) == Some(a)
    {
      assert Reads(a);
      Wire.TrimFinds("", Print(a), "");
      assert "" + Print(a) + "" == Print(a);
    }
  }
}
