/** ICMP error generation, src/forwarding/icmp.rs. */
module Icmp {
  import opened Octets
  import opened Address
  import opened Rfc1071
  import opened Packet
  import opened Net
  import Segment
  import Varint

  datatype ErrorKind = TimeExceeded | NoRouteToHost | AdminProhibited | PacketTooBig(mtu: U16)

  /** The proxy-side addresses errors come from. */
  datatype Gateways = Gateways(v4: U32, v6: Option<U128>)

  /** An error goes only to a real unicast sender. */
  predicate ValidTarget(a: IpAddr) {
    match a
    case V4(x) => x != 0 && x / 0x100_0000 != 127 && x / 0x1000_0000 != 14 && x != 0xffff_ffff
    case V6(x) => x != 0 && x != 1 && x / 0x100_0000_0000_0000_0000_0000_0000_0000 != 0xff
  }

  /** The senders no error goes to, as prefixes: unspecified, loopback, multicast and broadcast. */
  lemma TargetExactly(a: IpAddr)
    ensures !ValidTarget(a) <==>
            if a.V4? then
              || a.v4 == 0 || a.v4 == 0xffff_ffff || IpNet(V4(0x7f00_0000), 8).Contains(a)
              || IpNet(V4(0xe000_0000), 4).Contains(a)
            else a.v6 == 0 || a.v6 == 1 || IpNet(V6(0xff00_0000_0000_0000_0000_0000_0000_0000), 8).Contains(a)
  {
    BlockBounds(V4(0x7f00_0000), 8, 24, 0x100_0000);
    BlockBounds(V4(0xe000_0000), 4, 28, 0x1000_0000);
    BlockBounds(V6(0xff00_0000_0000_0000_0000_0000_0000_0000), 8, 120, 0x100_0000_0000_0000_0000_0000_0000_0000);
  }

  /** Type and code in ICMPv4. */
  function KindV4(kind: ErrorKind): (Byte, Byte) {
    match kind
    case TimeExceeded => (11, 0)
    case NoRouteToHost => (3, 0)
    case AdminProhibited => (3, 13)
    case PacketTooBig(_) => (3, 4)
  }

  /** Type and code in ICMPv6. */
  function KindV6(kind: ErrorKind): (Byte, Byte) {
    match kind
    case TimeExceeded => (3, 0)
    case NoRouteToHost => (1, 0)
    case AdminProhibited => (1, 1)
    case PacketTooBig(_) => (2, 0)
  }

  /** The four octets after the checksum: zero, or the next-hop MTU. */
  function RestOfHeader(kind: ErrorKind): (s: Octets)
    ensures |s| == 4
  {
    if kind.PacketTooBig? then BE(4, kind.mtu) else [0, 0, 0, 0]
  }

  /** An ICMP message with its checksum still zero. */
  function Unsummed(kind: (Byte, Byte), rest: Octets, quoted: Octets): (m: Octets)
    requires |rest| == 4
    ensures |m| == 8 + |quoted| && m[2] == m[3] == 0
  {
    [kind.0, kind.1, 0, 0] + rest + quoted
  }

  /** The addresses, upper-layer length and next header an ICMPv6 checksum also covers. */
  function PseudoV6(src: U128, dst: U128, len: nat): Octets {
    BE(16, src) + BE(16, dst) + BE(4, len) + [0, 0, 0, 58]
  }

  /** `original` is an IPv4 packet an error may be sent about. */
  predicate ReportableV4(original: Octets) {
    && |original| >= 20 && 20 <= HeaderLen(original) <= |original|
    && ValidTarget(FromBytes(original[12..16]))
    && !(original[9] == 1 && |original| > HeaderLen(original) && original[HeaderLen(original)] in {3, 4, 5, 11, 12})
  }

  predicate ReportableV6(original: Octets) {
    && |original| >= 40
    && ValidTarget(FromBytes(original[8..24]))
    && !(original[6] == 58 && |original| > 40 && original[40] < 128)
  }

  function HeaderV4(gateway: U32, dst: Octets, total: nat): (h: Octets)
    requires |dst| == 4
    ensures |h| == 20 && h[0] == 0x45
  {
    [0x45, 0] + BE(2, total) + [0, 0, 0, 0, 64, 1, 0, 0] + BE(4, gateway) + dst
  }

  function HeaderV6(gateway: U128, dst: Octets, len: nat): (h: Octets)
    requires |dst| == 16
    ensures |h| == 40 && h[0] == 0x60
  {
    [0x60, 0, 0, 0] + BE(2, len) + [58, 64] + BE(16, gateway) + dst
  }

  function QuotedV4(original: Octets): Octets
    requires ReportableV4(original)
  {
    original[..Min(|original|, HeaderLen(original) + 8)]
  }

  function QuotedV6(original: Octets): Octets
    requires ReportableV6(original)
  {
    original[..Min(|original|, 48)]
  }

  function ErrorV4(kind: ErrorKind, gateway: U32, original: Octets): (p: Octets)
    requires ReportableV4(original)
  {
    var message := Unsummed(KindV4(kind), RestOfHeader(kind), QuotedV4(original));
    Rechecksummed(HeaderV4(gateway, original[12..16], 20 + |message|))
    + Put(message, 2, BE(2, Checksum(0, message)))
  }

  function ErrorV6(kind: ErrorKind, gateway: U128, original: Octets): (p: Octets)
    requires ReportableV6(original)
  {
    var message := Unsummed(KindV6(kind), RestOfHeader(kind), QuotedV6(original));
    var pseudo := PseudoV6(gateway, Value(original[8..24]), |message|);
    HeaderV6(gateway, original[8..24], |message|)
    + Put(message, 2, BE(2, Checksum(0, pseudo + message)))
  }

  /** `build_icmp_error`. */
  function BuildError(kind: ErrorKind, source: Gateways, original: Octets): Option<Octets> {
    if original == [] then None
    else if IsV4(original) then
      if ReportableV4(original) then Some(ErrorV4(kind, source.v4, original)) else None
    else if IsV6(original) then
      if source.v6.Some? && ReportableV6(original) then Some(ErrorV6(kind, source.v6.value, original)) else None
    else None
  }

  lemma HeaderV4Fields(gateway: U32, dst: Octets, total: nat)
    requires |dst| == 4
    ensures var h := HeaderV4(gateway, dst, total);
            h[2..4] == BE(2, total) && h[9] == 1 && h[12..16] == BE(4, gateway) && h[16..20] == dst
  {
  }

  lemma ParseOfFields(p: Octets, gateway: U32, dst: Octets)
    requires 20 <= |p| <= 0xffff && |dst| == 4 && p[0] == 0x45
    requires p[2..4] == BE(2, |p|) && p[9] == 1 && p[12..16] == BE(4, gateway) && p[16..20] == dst
    ensures Parse(p) == Ok(PacketInfo(4, V4(gateway), FromBytes(dst), 1))
  {
    WordOf(|p|);
    assert p[2] == p[2..4][0] && p[3] == p[2..4][1];
    BytesRoundTrip(V4(gateway));
  }

  /** Checksumming a header changes none of the fields the parser reads. */
  lemma RechecksummedFields(h: Octets, rest: Octets)
    requires |h| == 20 && HeaderLen(h) == 20
    ensures var p := Rechecksummed(h) + rest;
            && p[0] == h[0] && p[9] == h[9]
            && p[2..4] == h[2..4] && p[12..16] == h[12..16] && p[16..20] == h[16..20]
            && p[..20] == Rechecksummed(h) && p[20..] == rest
  {
    RechecksummedVerifies(h);
  }

  lemma ErrorV4Parses(kind: ErrorKind, gateway: U32, original: Octets)
    requires ReportableV4(original)
    ensures Parse(ErrorV4(kind, gateway, original)) == Ok(PacketInfo(4, V4(gateway), FromBytes(original[12..16]), 1))
  {
    var message := Unsummed(KindV4(kind), RestOfHeader(kind), QuotedV4(original));
    var dst, total := original[12..16], 20 + |message|;
    HeaderV4Fields(gateway, dst, total);
    RechecksummedFields(HeaderV4(gateway, dst, total), Put(message, 2, BE(2, Checksum(0, message))));
    ParseOfFields(ErrorV4(kind, gateway, original), gateway, dst);
  }

  lemma ErrorV4Verifies(kind: ErrorKind, gateway: U32, original: Octets)
    requires ReportableV4(original)
    ensures var p := ErrorV4(kind, gateway, original);
            && p != [] && HeaderLen(p) == 20 <= |p| && HeaderVerifies(p)
            && Verifies(0, p[20..])
            && p[28..] == QuotedV4(original)
            && p[20] == KindV4(kind).0 && p[21] == KindV4(kind).1 && p[24..28] == RestOfHeader(kind)
  {
    var message := Unsummed(KindV4(kind), RestOfHeader(kind), QuotedV4(original));
    var h := HeaderV4(gateway, original[12..16], 20 + |message|);
    RechecksummedVerifies(h);
    FilledVerifies(0, message, 2);
    MessageParts(KindV4(kind), RestOfHeader(kind), QuotedV4(original), BE(2, Checksum(0, message)));
    AssembledV4(Rechecksummed(h), Put(message, 2, BE(2, Checksum(0, message))));
  }

  /** A 20-octet header before a message of at least eight octets. */
  lemma AssembledV4(h: Octets, m: Octets)
    requires |h| == 20 && HeaderLen(h) == 20 && HeaderVerifies(h) && |m| >= 8
    ensures var p := h + m;
            && HeaderLen(p) == 20 && HeaderVerifies(p) && p[20..] == m
            && p[28..] == m[8..] && p[20] == m[0] && p[21] == m[1] && p[24..28] == m[4..8]
  {
    var p := h + m;
    assert p[..20] == h && h[..20] == h;
    assert p[20..] == m;
    assert p[28..] == m[8..] && p[24..28] == m[4..8];
  }

  lemma MessageParts(kind: (Byte, Byte), rest: Octets, quoted: Octets, sum: Octets)
    requires |rest| == 4 && |sum| == 2
    ensures var m := Put(Unsummed(kind, rest, quoted), 2, sum);
            |m| == 8 + |quoted| && m[0] == kind.0 && m[1] == kind.1 && m[4..8] == rest && m[8..] == quoted
  {
    var m := Put(Unsummed(kind, rest, quoted), 2, sum);
    assert m[4..8] == rest && m[8..] == quoted;
  }

  lemma ErrorV6Parses(kind: ErrorKind, gateway: U128, original: Octets)
    requires ReportableV6(original)
    ensures Parse(ErrorV6(kind, gateway, original)) == Ok(PacketInfo(6, V6(gateway), FromBytes(original[8..24]), 58))
  {
    var message := Unsummed(KindV6(kind), RestOfHeader(kind), QuotedV6(original));
    var h := HeaderV6(gateway, original[8..24], |message|);
    var p := ErrorV6(kind, gateway, original);
    assert p[..40] == h;
    assert h[8..24] == BE(16, gateway) && h[24..40] == original[8..24];
    assert p[8..24] == h[8..24] && p[24..40] == h[24..40];
    WordOf(|message|);
    assert h[4..6] == BE(2, |message|);
    assert p[4] == h[4] == h[4..6][0] && p[5] == h[5] == h[4..6][1];
    BytesRoundTrip(V6(gateway));
  }

  lemma ErrorV6Verifies(kind: ErrorKind, gateway: U128, original: Octets)
    requires ReportableV6(original)
    ensures var p := ErrorV6(kind, gateway, original);
            && |p| >= 48
            && Verifies(0, PseudoV6(gateway, Value(original[8..24]), |p| - 40) + p[40..])
            && p[48..] == QuotedV6(original)
            && p[40] == KindV6(kind).0 && p[41] == KindV6(kind).1 && p[44..48] == RestOfHeader(kind)
  {
    var message := Unsummed(KindV6(kind), RestOfHeader(kind), QuotedV6(original));
    var p := ErrorV6(kind, gateway, original);
    var pseudo := PseudoV6(gateway, Value(original[8..24]), |message|);
    var c := Checksum(0, pseudo + message);
    FilledVerifies(0, pseudo + message, |pseudo| + 2);
    assert Put(pseudo + message, |pseudo| + 2, BE(2, c)) == pseudo + Put(message, 2, BE(2, c));
    var filled := Put(message, 2, BE(2, c));
    assert p[40..] == filled;
    assert p[48..] == filled[8..] == message[8..];
    assert p[44..48] == filled[4..8] == message[4..8];
  }

  /** The numbers of RFC 792 and RFC 1191: time exceeded in transit is 11/0, network unreachable 3/0, administratively
      prohibited 3/13, fragmentation needed 3/4 with the next-hop MTU in the last two octets of the header. The message quotes the
      original's IP header and the eight octets after it, as far as they are there. */
  lemma ErrorV4Numbers(kind: ErrorKind, gateway: U32, original: Octets)
    requires ReportableV4(original)
    ensures var p := ErrorV4(kind, gateway, original);
            && |p| == 28 + Min(|original|, original[0] % 16 * 4 + 8) && p[8] == 64 && p[28..] <= original
            && match kind
               case TimeExceeded => p[20] == 11 && p[21] == 0 && p[24..28] == [0, 0, 0, 0]
               case NoRouteToHost => p[20] == 3 && p[21] == 0 && p[24..28] == [0, 0, 0, 0]
               case AdminProhibited => p[20] == 3 && p[21] == 13 && p[24..28] == [0, 0, 0, 0]
               case PacketTooBig(mtu) => p[20] == 3 && p[21] == 4 && Value(p[24..28]) == mtu
  {
    ErrorV4Verifies(kind, gateway, original);
    var message := Unsummed(KindV4(kind), RestOfHeader(kind), QuotedV4(original));
    RechecksummedVerifies(HeaderV4(gateway, original[12..16], 20 + |message|));
    Varint.Powers();
    if kind.PacketTooBig? {
      ValueOfBE(4, kind.mtu);
    }
  }

  /** The numbers of RFC 4443: hop limit exceeded is 3/0, no route 1/0, administratively prohibited 1/1, packet too big 2/0 with
      the MTU. The message quotes the first 48 octets of the original. */
  lemma ErrorV6Numbers(kind: ErrorKind, gateway: U128, original: Octets)
    requires ReportableV6(original)
    ensures var p := ErrorV6(kind, gateway, original);
            && |p| == 48 + Min(|original|, 48) && p[7] == 64 && p[48..] <= original
            && match kind
               case TimeExceeded => p[40] == 3 && p[41] == 0 && p[44..48] == [0, 0, 0, 0]
               case NoRouteToHost => p[40] == 1 && p[41] == 0 && p[44..48] == [0, 0, 0, 0]
               case AdminProhibited => p[40] == 1 && p[41] == 1 && p[44..48] == [0, 0, 0, 0]
               case PacketTooBig(mtu) => p[40] == 2 && p[41] == 0 && Value(p[44..48]) == mtu
  {
    ErrorV6Verifies(kind, gateway, original);
    Varint.Powers();
    if kind.PacketTooBig? {
      ValueOfBE(4, kind.mtu);
    }
  }

  /** Which packets that parse earn an error: those from a sender that can have one, except, over either family, an ICMP error
      itself; over IPv6 only if the proxy has an address there. */
  lemma BuildExactly(kind: ErrorKind, source: Gateways, original: Octets)
    requires Parse(original).Ok?
    ensures BuildError(kind, source, original).Some? <==>
            && ValidTarget(Parse(original).value.src)
            && (if original[0] / 16 == 4 then
                  var ihl := original[0] % 16 * 4;
                  original[9] == 1 && |original| > ihl ==> original[ihl] !in {3, 4, 5, 11, 12}
                else source.v6.Some? && (original[6] == 58 && |original| > 40 ==> original[40] >= 128))
  {
  }

  /** The ICMPv6 checksum verifies as that of any upper-layer protocol does, behind the pseudo-header of the packet's own addresses
      and next header. */
  lemma ErrorV6Transport(kind: ErrorKind, gateway: U128, original: Octets)
    requires ReportableV6(original)
    ensures var p := ErrorV6(kind, gateway, original);
            |p| >= 48 && p[0] / 16 == 6 && Segment.TransportVerifies(p, 40)
  {
    var p := ErrorV6(kind, gateway, original);
    ErrorV6Verifies(kind, gateway, original);
    var h := HeaderV6(gateway, original[8..24], |p| - 40);
    BEOfValue(original[8..24]);
    assert p[..40] == h;
    assert h[6] == 58 && h[8..40] == BE(16, gateway) + original[8..24];
    assert Segment.PseudoHeader(p[..40], |p| - 40) == PseudoV6(gateway, Value(original[8..24]), |p| - 40);
  }

  lemma NotReportableV4(p: Octets)
    requires |p| > 20 && HeaderLen(p) == 20 && p[9] == 1 && p[20] in {3, 11}
    ensures !ReportableV4(p)
  {
  }

  lemma ErrorV4Terminal(kind: ErrorKind, gateway: U32, original: Octets)
    requires ReportableV4(original)
    ensures var p := ErrorV4(kind, gateway, original); p != [] && p[0] == 0x45 && !ReportableV4(p)
  {
    var message := Unsummed(KindV4(kind), RestOfHeader(kind), QuotedV4(original));
    var dst, total := original[12..16], 20 + |message|;
    HeaderV4Fields(gateway, dst, total);
    RechecksummedFields(HeaderV4(gateway, dst, total), Put(message, 2, BE(2, Checksum(0, message))));
    var p := ErrorV4(kind, gateway, original);
    assert p[20] == p[20..][0];
    NotReportableV4(p);
  }

  lemma ErrorV6Terminal(kind: ErrorKind, gateway: U128, original: Octets)
    requires ReportableV6(original)
    ensures var p := ErrorV6(kind, gateway, original); p != [] && p[0] == 0x60 && !ReportableV6(p)
  {
    ErrorV6Verifies(kind, gateway, original);
  }

  /** Every error parses, runs from the gateway to the sender of the packet it quotes, and itself provokes no error
      whatever the reporting router. */
  lemma ErrorIsTerminal(kind: ErrorKind, source: Gateways, original: Octets, kind': ErrorKind, source': Gateways)
    requires BuildError(kind, source, original).Some?
    ensures var p := BuildError(kind, source, original).value;
            && (IsV4(original) ==> Parse(p) == Ok(PacketInfo(4, V4(source.v4), FromBytes(original[12..16]), 1)))
            && (!IsV4(original) ==> Parse(p) == Ok(PacketInfo(6, V6(source.v6.value), FromBytes(original[8..24]), 58)))
            && BuildError(kind', source', p) == None
  {
    if IsV4(original) {
      ErrorV4Parses(kind, source.v4, original);
      ErrorV4Terminal(kind, source.v4, original);
    } else {
      ErrorV6Parses(kind, source.v6.value, original);
      ErrorV6Terminal(kind, source.v6.value, original);
    }
  }

  method SumHeader(header: Octets) returns (r: Octets)
    requires |header| == 20 && HeaderLen(header) == 20 && header[10] == 0 && header[11] == 0
    ensures r == Rechecksummed(header)
  {
    assert Put(header, 10, [0, 0]) == header && header[..20] == header;
    var sum := SliceChecksum(header);
    r := header[..10] + BE(2, sum) + header[12..];
  }

  method SumMessage(kind: (Byte, Byte), rest: Octets, quoted: Octets) returns (message: Octets)
    requires |rest| == 4 && |quoted| <= 0xff
    ensures var m := Unsummed(kind, rest, quoted); message == Put(m, 2, BE(2, Checksum(0, m)))
  {
    message := [kind.0, kind.1, 0, 0] + rest + quoted;
    var sum := SliceChecksum(message);
    message := message[..2] + BE(2, sum) + message[4..];
  }

  /** `build_v4_error`, field by field. */
  method BuildV4Error(kind: ErrorKind, gateway: U32, original: Octets) returns (r: Option<Octets>)
    ensures r == if original != [] && ReportableV4(original) then Some(ErrorV4(kind, gateway, original)) else None
  {
    if |original| < 20 {
      return None;
    }
    var ihl := HeaderLen(original);
    if ihl < 20 || |original| < ihl || !ValidTarget(FromBytes(original[12..16])) {
      return None;
    }
    if original[9] == 1 && |original| > ihl && original[ihl] in {3, 4, 5, 11, 12} {
      return None;
    }
    var quoted := original[..Min(|original|, ihl + 8)];
    var header := [0x45, 0] + BE(2, 28 + |quoted|) + [0, 0, 0, 0, 64, 1, 0, 0] + BE(4, gateway) + original[12..16];
    header := SumHeader(header);
    var message := SumMessage(KindV4(kind), RestOfHeader(kind), quoted);
    return Some(header + message);
  }

  /** `build_v6_error`, field by field. */
  method BuildV6Error(kind: ErrorKind, gateway: U128, original: Octets) returns (r: Option<Octets>)
    ensures r == if ReportableV6(original) then Some(ErrorV6(kind, gateway, original)) else None
  {
    if |original| < 40 || !ValidTarget(FromBytes(original[8..24])) {
      return None;
    }
    if original[6] == 58 && |original| > 40 && original[40] < 128 {
      return None;
    }
    var quoted := original[..Min(|original|, 48)];
    var header := [0x60, 0, 0, 0] + BE(2, 8 + |quoted|) + [58, 64] + BE(16, gateway) + original[8..24];
    var (icmpType, code) := KindV6(kind);
    var message := [icmpType, code, 0, 0] + RestOfHeader(kind) + quoted;
    var pseudo := BE(16, gateway) + BE(16, Value(original[8..24])) + BE(4, |message|) + [0, 0, 0, 58];
    var sum := SliceChecksum(pseudo + message);
    message := message[..2] + BE(2, sum) + message[4..];
    return Some(header + message);
  }
}
