/** IP and socket addresses. An address is its family and the number its octets denote. */
module Address {
  import opened Octets
  import Varint

  datatype IpAddr = V4(v4: U32) | V6(v6: U128) {
    /** The address widened to a number (`ip_key`). */
    function Key(): (k: nat)
      ensures k < Space()
    {
      if V4? then v4 else v6
    }

    function Version(): Byte {
      if V4? then 4 else 6
    }

    function Width(): nat {
      if V4? then 4 else 16
    }

    /** How many addresses the family has. */
    function Space(): nat {
      if V4? then 0x1_0000_0000 else 0x1_0000_0000_0000_0000_0000_0000_0000_0000
    }

    /** The address octets in network order. */
    function Bytes(): (s: Octets)
      ensures |s| == Width()
    {
      BE(Width(), Key())
    }
  }

  /** The address of the given family with the given number. */
  function Of(v4: bool, key: nat): IpAddr
    requires v4 ==> key < 0x1_0000_0000
    requires !v4 ==> key < 0x1_0000_0000_0000_0000_0000_0000_0000_0000
  {
    if v4 then V4(key) else V6(key)
  }

  /** `IpAddr::from` on four or sixteen octets. */
  function FromBytes(s: Octets): IpAddr
    requires |s| == 4 || |s| == 16
  {
    ValueBound(s);
    Varint.Powers();
    if |s| == 4 then V4(Value(s)) else V6(Value(s))
  }

  lemma BytesRoundTrip(a: IpAddr)
    ensures FromBytes(a.Bytes()) == a
  {
    Varint.Powers();
    ValueOfBE(a.Width(), a.Key());
  }

  lemma FromBytesRoundTrip(s: Octets)
    requires |s| == 4 || |s| == 16
    ensures FromBytes(s).Bytes() == s
  {
    BEOfValue(s);
  }

  datatype SocketAddr = SocketAddr(ip: IpAddr, port: U16)

  /** One entry of ADDRESS_ASSIGN (request id 0 is unprompted) or of ADDRESS_REQUEST (an unspecified address asks for
      any). */
  datatype AddressEntry = AddressEntry(requestId: U64, ipVersion: Byte, ipAddress: IpAddr, prefixLength: Byte)

  type AssignedAddress = AddressEntry
  type RequestedAddress = AddressEntry

  /** A protocol scope: 0 is every protocol, and ICMP of the address's own family always passes (section 4.7.3 of
      RFC 9484). */
  predicate Scoped(protocol: Byte, addr: IpAddr, proto: Byte) {
    protocol == 0 || protocol == proto || proto == (if addr.V4? then 1 else 58)
  }

  /** What a scope lets through: scope 0 everything, any other itself and ICMP, which is protocol 1 over IPv4 and 58 over IPv6. */
  lemma ScopedExactly(protocol: Byte, addr: IpAddr, proto: Byte)
    ensures protocol == 0 ==> Scoped(protocol, addr, proto)
    ensures protocol != 0 && addr.V4? ==> (Scoped(protocol, addr, proto) <==> proto in {1, protocol})
    ensures protocol != 0 && addr.V6? ==> (Scoped(protocol, addr, proto) <==> proto in {58, protocol})
  {
  }

  /** One entry of ROUTE_ADVERTISEMENT. */
  datatype IpAddressRange = IpAddressRange(ipVersion: Byte, startIp: IpAddr, endIp: IpAddr, ipProtocol: Byte) {

    /** `contains`: whether a packet to `addr` with protocol `proto` falls in the range. */
    predicate Contains(addr: IpAddr, proto: Byte) {
      && ipVersion == addr.Version()
      && Scoped(ipProtocol, addr, proto)
      && startIp.Key() <= addr.Key() <= endIp.Key()
    }

    /** Both bounds of the declared family, in order. */
    predicate WellFormed() {
      ipVersion == startIp.Version() == endIp.Version() && startIp.Key() <= endIp.Key()
    }
  }
}
