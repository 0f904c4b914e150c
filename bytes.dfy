/** Octets as stored in a `std::vector<uint8_t>`, and the view of a
    `std::string` as the octets it holds. */
module Bytes {

  /** One `uint8_t`. */
  type Byte = b: int | 0 <= b < 256

  /** A `std::string` holds one octet per character. */
  predicate IsOctets(s: string) {
    forall i | 0 <= i < |s| :: s[i] as int < 256
  }

  /** The octets of a string, in order. */
  function Octets(s: string): (r: seq<Byte>)
    requires IsOctets(s)
    ensures |r| == |s|
    ensures forall i | 0 <= i < |s| :: r[i] == s[i] as int
  {
    seq(|s|, i requires 0 <= i < |s| => s[i] as int)
  }

  /** The string whose characters are the given octets. */
  function Chars(b: seq<Byte>): (r: string)
    ensures |r| == |b|
    ensures forall i | 0 <= i < |b| :: r[i] as int == b[i]
  {
    seq(|b|, i requires 0 <= i < |b| => b[i] as char)
  }

  /** `Chars` and `Octets` are inverse to each other. */
  lemma OctetsChars(b: seq<Byte>)
    ensures IsOctets(Chars(b)) && Octets(Chars(b)) == b
  {
  }

  lemma CharsOctets(s: string)
    requires IsOctets(s)
    ensures Chars(Octets(s)) == s
  {
    assert forall i | 0 <= i < |s| :: Chars(Octets(s))[i] == s[i];
  }
}
