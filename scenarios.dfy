/** The `OptionDataTypesTest` cases, restated over the model: each method
    does what its test does and promises the values the test asserts. */
module OptionDataTypesTest {
  import opened Wrappers
  import opened Bytes
  import opened Address
  import opened Fqdn
  import opened Buffer
  import DataTypesFixture
  import opened OptionDataTypeUtil

  /** `mydomain.example.com` in wire format, one label per chunk. */
  const MyDomainWire: seq<Byte> :=
    [8, 109, 121, 100, 111, 109, 97, 105, 110] +
    [7, 101, 120, 97, 109, 112, 108, 101] +
    [3, 99, 111, 109] +
    [0]

  const MyDomainLabels: seq<string> := ["mydomain", "example", "com"]

  /** `hello.net` in wire format. */
  const HelloNetWire: seq<Byte> := [5, 104, 101, 108, 108, 111, 3, 110, 101, 116, 0]

  /** 2001:db8:1::1 in wire format. */
  const ReferenceV6: seq<Byte> :=
    [0x20, 0x01, 0x0d, 0xb8, 0x0, 0x1, 0x0, 0x0,
     0x0, 0x0, 0x0, 0x0, 0x0, 0x0, 0x0, 0x1]

  lemma MyDomainValid()
    ensures ValidLabels(MyDomainLabels) && AllEncodable(MyDomainLabels)
  {
    var ls := MyDomainLabels;
    assert ValidLabel(ls[0]) && ValidLabel(ls[1]) && ValidLabel(ls[2]);
    ValidLabelsEncodable(ls);
  }

  /** The reference octets are the encoding of the reference labels. */
  lemma MyDomainEncoded()
    ensures AllEncodable(MyDomainLabels) && EncodeName(MyDomainLabels) == MyDomainWire
  {
    MyDomainValid();
    assert MyDomainLabels == ["mydomain"] + ["example", "com"];
    assert ["example", "com"] == ["example"] + ["com"] && ["com"] == ["com"] + [];
    assert Encodable("example") && Encodable("com");
    assert AllEncodable(["example", "com"]) && AllEncodable(["com"]) && AllEncodable([]);
    assert [|"mydomain"|] + Octets("mydomain") == [8, 109, 121, 100, 111, 109, 97, 105, 110];
    assert [|"example"|] + Octets("example") == [7, 101, 120, 97, 109, 112, 108, 101];
    assert [|"com"|] + Octets("com") == [3, 99, 111, 109];
    EncodeFront("com", []);
    EncodeFront("example", ["com"]);
    EncodeFront("mydomain", ["example", "com"]);
    var a: seq<Byte>, b: seq<Byte>, c: seq<Byte> :=
      [8, 109, 121, 100, 111, 109, 97, 105, 110], [7, 101, 120, 97, 109, 112, 108, 101], [3, 99, 111, 109];
    assert a + (b + (c + [0])) == a + b + c + [0];
  }

  lemma MyDomainText()
    ensures Dotted(MyDomainLabels) == "mydomain.example.com."
  {
    assert MyDomainLabels[1..] == ["example", "com"];
    assert ["example", "com"][1..] == ["com"] && ["com"][1..] == [];
    assert Dotted(["com"]) == "com" + "." + Dotted([]);
    assert Dotted(["example", "com"]) == "example" + "." + Dotted(["com"]);
    assert Dotted(MyDomainLabels) == "mydomain" + "." + Dotted(["example", "com"]);
    assert "mydomain" + "." + ("example" + "." + ("com" + "." + [])) == "mydomain.example.com.";
  }

  /** `mydomain.example.com` is accepted and split into the reference labels. */
  lemma MyDomainParsed()
    ensures IsOctets("mydomain.example.com")
    ensures ParseFqdn("mydomain.example.com") == Success(MyDomainLabels)
  {
    MyDomainValid();
    MyDomainText();
    ParseFqdnComplete(MyDomainLabels);
    var d := Dotted(MyDomainLabels);
    assert d[..|d| - 1] == "mydomain.example.com";
  }

  lemma HelloNetParsed()
    ensures AllEncodable(["hello", "net"])
    ensures IsOctets("hello.net")
    ensures ParseFqdn("hello.net") == Success(["hello", "net"])
  {
    var ls := ["hello", "net"];
    HelloNetValid();
    HelloNetText();
    ParseFqdnComplete(ls);
    var d := Dotted(ls);
    assert d[..|d| - 1] == "hello.net";
  }

  lemma HelloNetValid()
    ensures ValidLabels(["hello", "net"]) && AllEncodable(["hello", "net"])
  {
    var ls := ["hello", "net"];
    assert ValidLabel(ls[0]) && ValidLabel(ls[1]);
    ValidLabelsEncodable(ls);
  }

  lemma HelloNetText()
    ensures Dotted(["hello", "net"]) == "hello.net."
  {
    assert ["hello", "net"][1..] == ["net"] && ["net"][1..] == [];
    assert Dotted(["net"]) == "net" + "." + Dotted([]);
    assert Dotted(["hello", "net"]) == "hello" + "." + Dotted(["net"]);
  }

  lemma HelloNetEncoded()
    requires AllEncodable(["hello", "net"])
    ensures EncodeName(["hello", "net"]) == HelloNetWire
  {
    var ls := ["hello", "net"];
    assert ls[1..] == ["net"] && ls[1..][1..] == [];
    assert Octets("hello") == [104, 101, 108, 108, 111];
    assert Octets("net") == [110, 101, 116];
  }

  /** Where the test looks in the 22 octets written first. */
  lemma FirstWritten()
    ensures var first := MyDomainWire;
      first[0] == 8 && first[9] == 7 && first[17] == 3 && first[21] == 0 &&
      Chars(first[1..9]) == "mydomain" && Chars(first[10..17]) == "example" &&
      Chars(first[18..21]) == "com"
  {
    MyDomainSlice(1, 9, [109, 121, 100, 111, 109, 97, 105, 110]);
    MyDomainSlice(10, 17, [101, 120, 97, 109, 112, 108, 101]);
    MyDomainSlice(18, 21, [99, 111, 109]);
  }

  lemma MyDomainSlice(from: nat, to: nat, octets: seq<Byte>)
    requires from <= to <= 22 && |octets| == to - from
    requires forall i | from <= i < to :: MyDomainWire[i] == octets[i - from]
    ensures MyDomainWire[from..to] == octets
  {
  }

  /** Where the test looks in the 33 octets after the second name. */
  lemma SecondWritten()
    ensures var second := MyDomainWire + HelloNetWire;
      |second| == 33 && second[22] == 5 && second[28] == 3 &&
      Chars(second[23..28]) == "hello" && Chars(second[29..32]) == "net"
  {
    var second := MyDomainWire + HelloNetWire;
    assert second[23..28] == HelloNetWire[1..6] == [104, 101, 108, 108, 111];
    assert second[29..32] == HelloNetWire[7..10] == [110, 101, 116];
  }

  lemma DoubleDotRejected()
    ensures IsOctets("example..com")
    ensures ParseFqdn("example..com") == Failure(BadDataTypeCast)
  {
    RejectsEmptyLabels("example..com", 7);
  }

  /** TEST_F(readAddress): 192.168.0.1 written by the fixture is read back
      as the same address. */
  method ReadAddressTest() returns (address: IOAddress, addressOut: Result<IOAddress>)
    ensures address == IOAddress(AF_INET, [192, 168, 0, 1])
    ensures addressOut == Success(address)
  {
    address := IOAddress(AF_INET, [192, 168, 0, 1]);
    var buf := new OptionBuffer();
    DataTypesFixture.WriteAddress(address, buf);
    addressOut := ReadAddress(buf.data, AF_INET);
    AddressRoundTrip(address, []);
    assert buf.data == address.octets + [];
  }

  /** TEST_F(writeAddress): 2001:db8:1::1 is written as its 16 reference octets. */
  method WriteAddressTest() returns (bufOut: seq<Byte>, outcome: Outcome)
    ensures outcome == Pass
    ensures |bufOut| == 16 && bufOut == ReferenceV6
  {
    var address := IOAddress(AF_INET6, ReferenceV6);
    var buf := new OptionBuffer();
    outcome := WriteAddress(address, buf);
    bufOut := buf.data;
  }

  /** TEST_F(readFqdn): the 22 reference octets read as
      `mydomain.example.com.` consuming all 22; cut to 5 octets, or
      emptied, the buffer is rejected. */
  method ReadFqdnTest() returns (fqdn: Result<(string, nat)>, truncated: Result<(string, nat)>,
                                 empty: Result<(string, nat)>)
    ensures fqdn == Success(("mydomain.example.com.", 22))
    ensures truncated == Failure(BadDataTypeCast)
    ensures empty == Failure(BadDataTypeCast)
  {
    var buf := new OptionBuffer.FromBytes(MyDomainWire);
    MyDomainEncoded();
    MyDomainText();
    DecodeEncoded(MyDomainLabels, MyDomainWire, 0);
    fqdn := ReadFqdn(buf.data);
    buf.data := buf.data[..5];
    truncated := ReadFqdn(buf.data);
    buf.data := [];
    empty := ReadFqdn(buf.data);
  }

  /** TEST_F(writeFqdn): `mydomain.example.com` is written as the 22
      reference octets, `hello.net` is appended behind them, and the empty
      name and `example..com` are rejected. */
  method WriteFqdnTest() returns (firstOutcome: Outcome, first: seq<Byte>,
                                  secondOutcome: Outcome, second: seq<Byte>,
                                  emptyName: Outcome, doubleDot: Outcome)
    ensures firstOutcome == Pass && secondOutcome == Pass
    ensures first == MyDomainWire
    ensures |first| == 22 && first[0] == 8 && first[9] == 7 && first[17] == 3 && first[21] == 0
    ensures Chars(first[1..9]) == "mydomain" && Chars(first[10..17]) == "example"
    ensures Chars(first[18..21]) == "com"
    ensures second == first + HelloNetWire
    ensures |second| == 33 && second[22] == 5 && second[28] == 3
    ensures Chars(second[23..28]) == "hello" && Chars(second[29..32]) == "net"
    ensures emptyName == Fail(BadDataTypeCast) && doubleDot == Fail(BadDataTypeCast)
  {
    MyDomainParsed();
    MyDomainEncoded();
    HelloNetParsed();
    HelloNetEncoded();
    FirstWritten();
    SecondWritten();
    var buf := new OptionBuffer();
    firstOutcome := WriteFqdn("mydomain.example.com", buf);
    first := buf.data;
    secondOutcome := WriteFqdn("hello.net", buf);
    second := buf.data;
    buf.data := [];
    emptyName := WriteFqdn("", buf);
    buf.data := [];
    DoubleDotRejected();
    doubleDot := WriteFqdn("example..com", buf);
  }
}
