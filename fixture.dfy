/** The writers of the `OptionDataTypesTest` fixture, which build the wire
    data the codec's readers are tested on. Each appends to the caller's
    buffer and leaves what was there before untouched. */
module DataTypesFixture {
  import opened Bytes
  import opened Address
  import opened BigEndian
  import opened Buffer

  /** `writeAddress`: the address's 4 (IPv4) or 16 (IPv6) octets go to the
      end of the buffer; an address of any other family adds nothing. */
  method WriteAddress(address: IOAddress, buf: OptionBuffer)
    requires WellFormed(address)
    modifies buf
    ensures address.family == AF_INET ==>
      buf.data == old(buf.data) + address.octets && |buf.data| == |old(buf.data)| + 4
    ensures address.family == AF_INET6 ==>
      buf.data == old(buf.data) + address.octets && |buf.data| == |old(buf.data)| + 16
    ensures address.family != AF_INET && address.family != AF_INET6 ==>
      buf.data == old(buf.data)
  {
    var family := address.family;
    if family == AF_INET {
      buf.data := buf.data + address.octets;
    } else if family == AF_INET6 {
      buf.data := buf.data + address.octets;
    }
  }

  /** `writeInt<T>`: pushes `sizeof(T)` octets, octet `i` being
      `(value >> ((sizeof(T) - i - 1) * 8)) & 0xFF`, which is the
      big-endian two's complement encoding of the value. */
  method WriteInt(value: int, t: IntType, buf: OptionBuffer)
    requires ValidType(t) && InRange(value, t)
    modifies buf
    ensures buf.data == old(buf.data) + Encode(value, t.width)
  {
    var i := 0;
    while i < t.width
      invariant 0 <= i <= t.width
      invariant buf.data == old(buf.data) + Encode(value, t.width)[..i]
    {
      EncodeOctetAt(value, t.width, i);
      buf.data := buf.data + [LowOctet(ShiftRight(value, (t.width - i - 1) * 8))];
      assert Encode(value, t.width)[..i + 1] == Encode(value, t.width)[..i] + [Encode(value, t.width)[i]];
      i := i + 1;
    }
    assert Encode(value, t.width)[..t.width] == Encode(value, t.width);
  }

  /** `writeString`: grows the buffer by the string's length, then copies
      the string into the new tail from its last octet to its first. */
  method WriteString(value: string, buf: OptionBuffer)
    requires IsOctets(value)
    modifies buf
    ensures buf.data == old(buf.data) + Octets(value)
  {
    var start := |buf.data|;
    buf.data := buf.data + seq(|value|, _ => 0);
    var k := |value|;
    while k > 0
      invariant 0 <= k <= |value|
      invariant |buf.data| == start + |value|
      invariant buf.data[..start] == old(buf.data)
      invariant buf.data[start + k..] == Octets(value)[k..]
    {
      k := k - 1;
      buf.data := buf.data[start + k := value[k] as int];
      assert buf.data[start + k..] == [value[k] as int] + buf.data[start + k + 1..];
    }
    assert buf.data == buf.data[..start] + buf.data[start..];
  }
}
