/** `OptionDataTypeUtil`: the codec's readers and writers for addresses
    and domain names, with the behaviour the unit tests pin down. */
module OptionDataTypeUtil {
  import opened Wrappers
  import opened Bytes
  import opened Address
  import opened Fqdn
  import opened Buffer

  /** `readAddress(buf, family)`: the address held in the first 4 (IPv4)
      or 16 (IPv6) octets of the buffer; a shorter buffer or another family
      is BadDataTypeCast. */
  function ReadAddress(buf: seq<Byte>, family: int): (r: Result<IOAddress>)
    ensures r.Success? <==>
      (family == AF_INET || family == AF_INET6) && AddressLength(family) <= |buf|
    ensures r.Success? ==> r.value.family == family && WellFormed(r.value)
    ensures r.Success? ==> r.value.octets == buf[..AddressLength(family)]
  {
    if (family == AF_INET || family == AF_INET6) && AddressLength(family) <= |buf| then
      Success(IOAddress(family, buf[..AddressLength(family)]))
    else
      Failure(BadDataTypeCast)
  }

  /** `writeAddress(address, buf)`: appends the address's 4 or 16 octets. */
  method WriteAddress(address: IOAddress, buf: OptionBuffer) returns (outcome: Outcome)
    requires WellFormed(address)
    modifies buf
    ensures address.family == AF_INET || address.family == AF_INET6 ==>
      outcome == Pass && buf.data == old(buf.data) + address.octets
    ensures address.family != AF_INET && address.family != AF_INET6 ==>
      outcome == Fail(BadDataTypeCast) && buf.data == old(buf.data)
  {
    if address.family == AF_INET || address.family == AF_INET6 {
      buf.data := buf.data + address.octets;
      outcome := Pass;
    } else {
      outcome := Fail(BadDataTypeCast);
    }
  }

  /** Reading, with the address's own family, from a buffer that starts
      with what `writeAddress` appended gives the address back, whatever
      follows it. */
  lemma AddressRoundTrip(a: IOAddress, rest: seq<Byte>)
    requires WellFormed(a) && (a.family == AF_INET || a.family == AF_INET6)
    ensures ReadAddress(a.octets + rest, a.family) == Success(a)
  {
    assert (a.octets + rest)[..|a.octets|] == a.octets;
  }

  /** The outcome `readFqdn` reports for a decoded name: its text and the
      number of octets consumed. */
  function Rendered(r: Result<Decoded>): Result<(string, nat)> {
    match r
    case Success(d) => Success((NameText(d.labels), d.end))
    case Failure(e) => Failure(e)
  }

  /** `readFqdn(buf, len)`: walks the buffer one length octet and one label
      at a time up to the root's zero octet, and returns the name's text,
      ending in a dot, with the number of octets it consumed. */
  method ReadFqdn(buf: seq<Byte>) returns (r: Result<(string, nat)>)
    ensures r == Rendered(DecodeFrom(buf, 0))
  {
    var pos: nat := 0;
    var text: string := "";
    ghost var labels: seq<string> := [];
    ghost var whole := DecodeFrom(buf, 0);
    PrefixedTwice([], [], whole);
    while pos < |buf| && 0 < buf[pos] <= MaxLabelLength && pos + 1 + buf[pos] <= |buf|
      invariant pos <= |buf|
      invariant text == Dotted(labels)
      invariant whole == Prefixed(labels, DecodeFrom(buf, pos))
      decreases |buf| - pos
    {
      var next := pos + 1 + buf[pos];
      var first := Chars(buf[pos + 1..next]);
      ReadLabel(buf, pos, labels, whole);
      text := text + (first + ".");
      labels := labels + [first];
      pos := next;
    }
    if pos == |buf| || buf[pos] != 0 {
      ReadFails(buf, pos, labels, whole);
      return Failure(BadDataTypeCast);
    }
    if text == "" {
      text := ".";
    }
    r := Success((text, pos + 1));
    ReadRoot(buf, pos, labels, whole);
  }

  /** One step of `readFqdn`: a label that fits is the next label of the name. */
  lemma ReadLabel(buf: seq<Byte>, pos: nat, labels: seq<string>, whole: Result<Decoded>)
    requires pos < |buf| && 0 < buf[pos] <= MaxLabelLength && pos + 1 + buf[pos] <= |buf|
    requires whole == Prefixed(labels, DecodeFrom(buf, pos))
    ensures var next := pos + 1 + buf[pos];
      var first := Chars(buf[pos + 1..next]);
      whole == Prefixed(labels + [first], DecodeFrom(buf, next)) &&
      Dotted(labels + [first]) == Dotted(labels) + (first + ".")
  {
    var next := pos + 1 + buf[pos];
    var first := Chars(buf[pos + 1..next]);
    PrefixedTwice(labels, [first], DecodeFrom(buf, next));
    DottedSnoc(labels, first);
  }

  /** A missing length octet, or a label that does not fit, fails the
      whole name. */
  lemma ReadFails(buf: seq<Byte>, pos: nat, labels: seq<string>, whole: Result<Decoded>)
    requires pos == |buf| || (pos < |buf| && 0 < buf[pos] &&
      (buf[pos] > MaxLabelLength || pos + 1 + buf[pos] > |buf|))
    requires whole == Prefixed(labels, DecodeFrom(buf, pos))
    ensures Rendered(whole) == Failure(BadDataTypeCast)
  {
  }

  /** The end of `readFqdn`: the root octet closes the name read so far. */
  lemma ReadRoot(buf: seq<Byte>, pos: nat, labels: seq<string>, whole: Result<Decoded>)
    requires pos < |buf| && buf[pos] == 0
    requires whole == Prefixed(labels, DecodeFrom(buf, pos))
    ensures Rendered(whole) == Success((if Dotted(labels) == "" then "." else Dotted(labels), pos + 1))
  {
    assert labels + [] == labels;
  }

  /** What `readFqdn` reports on success: a text ending in the root's dot,
      and a consumed length that stays inside the buffer and ends on the
      root's zero octet, the consumed octets being exactly the encoding of
      the labels of that text. */
  lemma ReadFqdnResult(buf: seq<Byte>)
    ensures DecodeFrom(buf, 0).Success? ==>
      var d := DecodeFrom(buf, 0).value;
      var text := NameText(d.labels);
      Rendered(DecodeFrom(buf, 0)) == Success((text, d.end)) &&
      |text| >= 1 && text[|text| - 1] == '.' &&
      1 <= d.end <= |buf| && AllEncodable(d.labels) && buf[..d.end] == EncodeName(d.labels) && buf[d.end - 1] == 0
  {
    if DecodeFrom(buf, 0).Success? {
      var d := DecodeFrom(buf, 0).value;
      DecodeExact(buf, 0);
      NameTextAbsolute(d.labels);
      assert buf[..d.end] == buf[0..d.end];
      assert buf[d.end - 1] == EncodeName(d.labels)[d.end - 1];
    }
  }

  /** A label octet 46 (`.`) is printed as it is, so one label `a.b`
      reads as the same text as the two labels `a` and `b`. */
  lemma DotInLabelText()
    ensures DecodeFrom([3, 97, 46, 98, 0], 0) == Success(Decoded(["a.b"], 5))
    ensures DecodeFrom([1, 97, 1, 98, 0], 0) == Success(Decoded(["a", "b"], 5))
    ensures Rendered(DecodeFrom([3, 97, 46, 98, 0], 0)) == Success(("a.b.", 5))
    ensures Rendered(DecodeFrom([1, 97, 1, 98, 0], 0)) == Success(("a.b.", 5))
  {
    var one: seq<Byte> := [3, 97, 46, 98, 0];
    assert Chars(one[1..4]) == "a.b";
    assert DecodeFrom(one, 4) == Success(Decoded([], 5));
    assert DecodeFrom(one, 0) == Prefixed(["a.b"], DecodeFrom(one, 4));
    assert ["a.b"] + [] == ["a.b"];
    assert DecodeFrom(one, 0) == Success(Decoded(["a.b"], 5));
    var two: seq<Byte> := [1, 97, 1, 98, 0];
    assert Chars(two[1..2]) == "a" && Chars(two[3..4]) == "b";
    assert DecodeFrom(two, 4) == Success(Decoded([], 5));
    assert DecodeFrom(two, 2) == Prefixed(["b"], DecodeFrom(two, 4));
    assert DecodeFrom(two, 0) == Prefixed(["a"], DecodeFrom(two, 2));
    assert ["b"] + [] == ["b"] && ["a"] + ["b"] == ["a", "b"];
    assert DecodeFrom(two, 0) == Success(Decoded(["a", "b"], 5));
    assert ["a.b"][1..] == [] && ["a", "b"][1..] == ["b"] && ["b"][1..] == [];
    assert NameText(["a.b"]) == "a.b" + "." + "" == "a.b.";
    assert NameText(["a", "b"]) == "a" + "." + ("b" + "." + "") == "a.b.";
  }

  lemma PrefixedTwice(a: seq<string>, b: seq<string>, r: Result<Decoded>)
    ensures Prefixed(a, Prefixed(b, r)) == Prefixed(a + b, r)
    ensures Prefixed([], r) == r
  {
    if r.Success? {
      assert a + (b + r.value.labels) == (a + b) + r.value.labels;
      assert [] + r.value.labels == r.value.labels;
    }
  }

  /** `writeFqdn(name, buf)`: validates the name, then appends its
      encoding; a rejected name leaves the buffer as it was. */
  method WriteFqdn(name: string, buf: OptionBuffer) returns (outcome: Outcome)
    requires IsOctets(name)
    modifies buf
    ensures match ParseFqdn(name)
      case Success(labels) =>
        AllEncodable(labels) && outcome == Pass && buf.data == old(buf.data) + EncodeName(labels)
      case Failure(e) => outcome == Fail(e) && buf.data == old(buf.data)
  {
    var parsed := ParseFqdn(name);
    if parsed.Failure? {
      return Fail(parsed.error);
    }
    ParseFqdnSound(name);
    ValidLabelsEncodable(parsed.value);
    AppendName(parsed.value, buf);
    outcome := Pass;
  }

  /** Appends each label behind its length octet, then the root's zero octet. */
  method AppendName(labels: seq<string>, buf: OptionBuffer)
    requires AllEncodable(labels)
    modifies buf
    ensures buf.data == old(buf.data) + EncodeName(labels)
  {
    var i := 0;
    while i < |labels|
      invariant 0 <= i <= |labels|
      invariant AllEncodable(labels[..i])
      invariant buf.data == old(buf.data) + EncodeLabels(labels[..i])
    {
      var l := labels[i];
      assert Encodable(l);
      EncodeLabelsSnoc(labels[..i], l);
      assert labels[..i + 1] == labels[..i] + [l];
      buf.data := buf.data + [|l|] + Octets(l);
      i := i + 1;
    }
    assert labels[..i] == labels;
    buf.data := buf.data + [0];
  }
}
