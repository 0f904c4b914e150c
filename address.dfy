/** IP addresses on the wire: 4 raw octets for IPv4, 16 for IPv6, no
    length prefix, the family chosen by the caller. */
module Address {
  import opened Bytes

  /** Address family codes (`short`), with their Linux values. */
  const AF_INET: int := 2
  const AF_INET6: int := 10

  /** Octets in an address of the family, or 0 for an unknown family. */
  function AddressLength(family: int): nat {
    if family == AF_INET then 4 else if family == AF_INET6 then 16 else 0
  }

  /** An `IOAddress` seen through its family code and its raw octets in
      network byte order. */
  datatype IOAddress = IOAddress(family: int, octets: seq<Byte>)

  /** An IPv4 address has 4 octets and an IPv6 address 16. */
  predicate WellFormed(a: IOAddress) {
    (a.family == AF_INET || a.family == AF_INET6) ==> |a.octets| == AddressLength(a.family)
  }
}
