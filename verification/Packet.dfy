/** IP packet validation and the one-hop rewrite, src/forwarding/packet.rs. */
module Packet {
  import opened Octets
  import opened Address
  import opened Rfc1071
  import opened Net

  datatype ForwardingError =
    | MalformedPacket
    | SourceAddressViolation(src: IpAddr)
    | TtlExpired
    | LinkLocalDrop
    | MtuExceeded
    | NoRoute
    | NotAllowed(addr: IpAddr)
    | Congested
    | RateLimited

  type Forwarding<+T> = Result<T, ForwardingError>

  datatype PacketInfo = PacketInfo(version: Byte, src: IpAddr, dst: IpAddr, protocol: Byte)

  predicate IsV4(p: Octets)
    requires p != []
  {
    p[0] / 16 == 4
  }

  predicate IsV6(p: Octets)
    requires p != []
  {
    p[0] / 16 == 6
  }

  /** The IPv4 header length in octets. */
  function HeaderLen(p: Octets): nat
    requires p != []
  {
    p[0] % 16 * 4
  }

  function Parse(p: Octets): Forwarding<PacketInfo> {
    if p == [] then Err(MalformedPacket)
    else if IsV4(p) then
      if |p| < 20 || HeaderLen(p) < 20 || Word(p[2], p[3]) < HeaderLen(p) || |p| != Word(p[2], p[3]) then Err(MalformedPacket)
      else Ok(PacketInfo(4, FromBytes(p[12..16]), FromBytes(p[16..20]), p[9]))
    else if IsV6(p) then
      if |p| < 40 || |p| != 40 + Word(p[4], p[5]) then Err(MalformedPacket)
      else
        var proto :- FinalProtocol(p, p[6], 40, 8);
        Ok(PacketInfo(6, FromBytes(p[8..24]), FromBytes(p[24..40]), proto))
    else Err(MalformedPacket)
  }

  predicate IsExtension(next: Byte) {
    next in {0, 43, 44, 51, 60}
  }

  /** The octets the extension header `next` at `offset` occupies, or `None` if it is truncated. */
  function ExtensionLen(p: Octets, next: Byte, offset: nat): (r: Option<nat>)
    requires IsExtension(next)
    ensures r.Some? ==> 8 <= r.value && offset + r.value <= |p|
  {
    if |p| < offset + 8 then None
    else
      var units: int := p[offset + 1];
      var len := if next == 44 then 8 else if next == 51 then (units + 2) * 4 else 8 + units * 8;
      if |p| < offset + len then None else Some(len)
  }

  predicate LaterFragment(p: Octets, next: Byte, offset: nat)
    requires offset + 4 <= |p|
  {
    next == 44 && Word(p[offset + 2], p[offset + 3]) / 8 != 0
  }

  /** The upper-layer protocol past at most `rounds` extension headers. */
  function FinalProtocol(p: Octets, next: Byte, offset: nat, rounds: nat): Forwarding<Byte>
    decreases rounds
  {
    if rounds == 0 then Err(MalformedPacket)
    else if !IsExtension(next) then Ok(next)
    else
      var len := ExtensionLen(p, next, offset);
      if len.None? then Err(MalformedPacket)
      else if LaterFragment(p, next, offset) then Ok(44)
      else FinalProtocol(p, p[offset], offset + len.value, rounds - 1)
  }

  /** `ipv6_final_protocol`: the bounded walk, one header per turn. */
  method Ipv6FinalProtocol(p: Octets) returns (r: Forwarding<Byte>)
    requires |p| >= 40
    ensures r == FinalProtocol(p, p[6], 40, 8)
  {
    var next: Byte, offset: nat := p[6], 40;
    for i := 0 to 8
      invariant FinalProtocol(p, next, offset, 8 - i) == FinalProtocol(p, p[6], 40, 8)
    {
      if !IsExtension(next) {
        return Ok(next);
      }
      var len := ExtensionLen(p, next, offset);
      if len.None? {
        return Err(MalformedPacket);
      }
      if LaterFragment(p, next, offset) {
        return Ok(44);
      }
      next := p[offset];
      offset := offset + len.value;
    }
    return Err(MalformedPacket);
  }

  /** What parses, and to what: a length field that is the packet's length, an IPv4 header of at least five words inside it,
      and addresses and protocol where RFC 791 and RFC 8200 put them. */
  lemma ParseExactly(p: Octets, info: PacketInfo)
    ensures Parse(p) == Ok(info) <==>
            p != [] &&
            if p[0] / 16 == 4 then
              && |p| >= 20 && 5 <= p[0] % 16 && p[0] % 16 * 4 <= |p| == Value(p[2..4])
              && info == PacketInfo(4, FromBytes(p[12..16]), FromBytes(p[16..20]), p[9])
            else
              && p[0] / 16 == 6 && |p| >= 40 && |p| == 40 + Value(p[4..6]) && FinalProtocol(p, p[6], 40, 8).Ok?
              && info == PacketInfo(6, FromBytes(p[8..24]), FromBytes(p[24..40]), FinalProtocol(p, p[6], 40, 8).value)
  {
    if |p| >= 20 && p[0] / 16 == 4 {
      WordValue(p, 2);
    } else if |p| >= 40 {
      WordValue(p, 4);
    }
  }

  lemma WordValue(p: Octets, at: nat)
    requires at + 2 <= |p|
    ensures Value(p[at..at + 2]) == Word(p[at], p[at + 1])
  {
    var w := p[at..at + 2];
    assert w[..1][..0] == [];
    assert Value(w[..1]) == w[0];
  }

  /** An IPv6 extension header: its type, the length octet and what follows the two. */
  datatype Extension = Extension(kind: Byte, units: Byte, rest: Octets) {
    /** RFC 8200 counts in 8 octets beyond the first 8, RFC 4302 in 4 octets less two, and a fragment header has 8. */
    function Size(): nat {
      if kind == 44 then 8 else if kind == 51 then 8 + 4 * units else 8 + 8 * units
    }

    predicate WellFormed() {
      kind in {0, 43, 44, 51, 60} && |rest| == Size() - 2
    }

    /** A fragment other than the first. */
    predicate Later()
      requires WellFormed()
    {
      kind == 44 && Word(rest[0], rest[1]) / 8 != 0
    }
  }

  function FirstType(exts: seq<Extension>, upper: Byte): Byte {
    if exts == [] then upper else exts[0].kind
  }

  /** Extension headers on the wire, each naming the type of what comes next. */
  function Chain(exts: seq<Extension>, upper: Byte): Octets {
    if exts == [] then [] else [FirstType(exts[1..], upper), exts[0].units] + exts[0].rest + Chain(exts[1..], upper)
  }

  ghost predicate AllWellFormed(exts: seq<Extension>) {
    forall i :: 0 <= i < |exts| ==> exts[i].WellFormed()
  }

  /** How many headers come before the first later fragment. */
  ghost function BeforeLater(exts: seq<Extension>): nat
    requires AllWellFormed(exts)
  {
    if exts == [] || exts[0].Later() then 0 else 1 + BeforeLater(exts[1..])
  }

  /** The chain lies in `p` from `offset` on. */
  ghost predicate Lies(p: Octets, offset: nat, exts: seq<Extension>, upper: Byte)
    requires AllWellFormed(exts)
    decreases |exts|
  {
    exts == [] ||
    (&& offset + exts[0].Size() <= |p|
     && p[offset] == FirstType(exts[1..], upper) && p[offset + 1] == exts[0].units
     && p[offset + 2] == exts[0].rest[0] && p[offset + 3] == exts[0].rest[1]
     && Lies(p, offset + exts[0].Size(), exts[1..], upper))
  }

  /** Where a walk of at most `rounds` headers ends: at the first later fragment, which hides the rest, or at the upper-layer
      protocol, if it gets there. */
  ghost function Found(exts: seq<Extension>, upper: Byte, rounds: nat): Forwarding<Byte>
    requires AllWellFormed(exts)
  {
    var n := BeforeLater(exts);
    if n >= rounds then Err(MalformedPacket) else if n < |exts| then Ok(44) else Ok(upper)
  }

  lemma {:induction false} LyingFound(p: Octets, exts: seq<Extension>, upper: Byte, offset: nat, rounds: nat)
    requires AllWellFormed(exts) && !IsExtension(upper) && Lies(p, offset, exts, upper)
    ensures FinalProtocol(p, FirstType(exts, upper), offset, rounds) == Found(exts, upper, rounds)
    decreases rounds
  {
    if rounds == 0 {
    } else if exts != [] {
      WalkStep(p, exts[0], offset, rounds);
      if !exts[0].Later() {
        LyingFound(p, exts[1..], upper, offset + exts[0].Size(), rounds - 1);
      }
    }
  }

  lemma WalkStep(p: Octets, e: Extension, offset: nat, rounds: nat)
    requires e.WellFormed() && rounds > 0 && offset + e.Size() <= |p|
    requires p[offset + 1] == e.units && p[offset + 2] == e.rest[0] && p[offset + 3] == e.rest[1]
    ensures FinalProtocol(p, e.kind, offset, rounds) ==
            if e.Later() then Ok(44) else FinalProtocol(p, p[offset], offset + e.Size(), rounds - 1)
  {
    assert ExtensionLen(p, e.kind, offset) == Some(e.Size());
  }

  lemma {:induction false} ChainLies(p: Octets, exts: seq<Extension>, upper: Byte, offset: nat)
    requires AllWellFormed(exts) && offset <= |p| && Chain(exts, upper) <= p[offset..]
    ensures Lies(p, offset, exts, upper)
    decreases |exts|
  {
    if exts != [] {
      ChainHead(p, exts, upper, offset);
      ChainLies(p, exts[1..], upper, offset + exts[0].Size());
    }
  }

  /** For every packet that carries a chain of extension headers after its IPv6 header, what the walk finds. */
  lemma WalkFinds(p: Octets, exts: seq<Extension>, upper: Byte)
    requires AllWellFormed(exts) && upper !in {0, 43, 44, 51, 60}
    requires |p| >= 40 && p[6] == FirstType(exts, upper) && Chain(exts, upper) <= p[40..]
    ensures FinalProtocol(p, p[6], 40, 8) == Found(exts, upper, 8)
  {
    ChainLies(p, exts, upper, 40);
    LyingFound(p, exts, upper, 40, 8);
  }

  lemma ChainHead(p: Octets, exts: seq<Extension>, upper: Byte, offset: nat)
    requires AllWellFormed(exts) && exts != [] && offset <= |p| && Chain(exts, upper) <= p[offset..]
    ensures var e := exts[0]; var n := e.Size();
            && e.WellFormed() && offset + n <= |p| && Chain(exts[1..], upper) <= p[offset + n..]
            && p[offset] == FirstType(exts[1..], upper) && p[offset + 1] == e.units
            && p[offset + 2] == e.rest[0] && p[offset + 3] == e.rest[1]
  {
    var e := exts[0];
    assert e.WellFormed();
    Prefixed(p[offset..], [FirstType(exts[1..], upper), e.units] + e.rest, Chain(exts[1..], upper));
    assert p[offset..][e.Size()..] == p[offset + e.Size()..];
  }

  lemma Prefixed(s: Octets, head: Octets, tail: Octets)
    requires head + tail <= s
    ensures |head| <= |s| && tail <= s[|head|..] && forall k :: 0 <= k < |head| ==> s[k] == head[k]
  {
    assert s[..|head + tail|] == head + tail;
    assert s[|head|..][..|tail|] == tail;
    forall k | 0 <= k < |head|
      ensures s[k] == head[k]
    {
      assert s[k] == (head + tail)[k];
    }
  }

  /** One assigned prefix covers `src`; an impossible prefix length covers nothing. */
  predicate Covers(a: AssignedAddress, src: IpAddr) {
    var net := IpNet(a.ipAddress, a.prefixLength);
    net.Valid() && net.Contains(src)
  }

  /** An assignment covers the addresses of its family that agree with it in as many bits as its prefix is long, if the family has
      that many. */
  lemma CoversExactly(a: AssignedAddress, src: IpAddr)
    ensures Covers(a, src) <==>
            && src.V4? == a.ipAddress.V4? && a.prefixLength as int <= Bits(src.V4?)
            && src.Key() / Pow2(Bits(src.V4?) - a.prefixLength) == a.ipAddress.Key() / Pow2(Bits(src.V4?) - a.prefixLength)
  {
    var net := IpNet(a.ipAddress, a.prefixLength);
    if net.Valid() {
      ContainsExactly(net, src);
    }
  }

  function ValidateSource(info: PacketInfo, held: seq<AssignedAddress>): Forwarding<()> {
    if exists i :: 0 <= i < |held| && Covers(held[i], info.src) then Ok(()) else Err(SourceAddressViolation(info.src))
  }

  /** A source is accepted exactly when some assignment, whichever it is, covers it. */
  lemma SourceExactly(info: PacketInfo, held: seq<AssignedAddress>)
    ensures ValidateSource(info, held).Ok? <==> exists i :: 0 <= i < |held| && Covers(held[i], info.src)
    ensures ValidateSource(info, held).Err? ==> ValidateSource(info, held).error == SourceAddressViolation(info.src)
  {
  }

  function ValidateDestination(dst: IpAddr): Forwarding<()> {
    var drop := match dst
      case V4(a) => a / 0x100_0000 == 127 || a / 0x1_0000 == 0xa9fe || a == 0 || a == 0xffff_ffff
      case V6(a) => a == 1 || a == 0 || a / 0x40_0000_0000_0000_0000_0000_0000_0000 == 0x3fa;
    if drop then Err(LinkLocalDrop) else Ok(())
  }

  /** The destinations a proxy must not forward to, as prefixes: loopback, link-local, unspecified and broadcast. */
  lemma DestinationRefused(dst: IpAddr)
    ensures ValidateDestination(dst).Err? <==>
            if dst.V4? then
              || IpNet(V4(0x7f00_0000), 8).Contains(dst) || IpNet(V4(0xa9fe_0000), 16).Contains(dst)
              || dst.v4 == 0 || dst.v4 == 0xffff_ffff
            else
              || IpNet(V6(0xfe80_0000_0000_0000_0000_0000_0000_0000), 10).Contains(dst)
              || dst.v6 == 0 || dst.v6 == 1
  {
    BlockBounds(V4(0x7f00_0000), 8, 24, 0x100_0000);
    BlockBounds(V4(0xa9fe_0000), 16, 16, 0x1_0000);
    BlockBounds(V6(0xfe80_0000_0000_0000_0000_0000_0000_0000), 10, 118, 0x40_0000_0000_0000_0000_0000_0000_0000);
  }

  lemma BlockBounds(start: IpAddr, len: nat, bits: nat, size: nat)
    requires size > 0 && len + bits == Bits(start.V4?) && start.Key() % size == 0
    requires (bits, size) in {(24, 0x100_0000), (16, 0x1_0000), (28, 0x1000_0000),
                              (118, 0x40_0000_0000_0000_0000_0000_0000_0000), (120, 0x100_0000_0000_0000_0000_0000_0000_0000)}
    ensures IpNet(start, len).Network() == start.Key() && IpNet(start, len).Last() == start.Key() + (size - 1)
  {
    SmallPowers();
    assert IpNet(start, len).Size() == size;
  }

  lemma SmallPowers()
    ensures Pow2(16) == 0x1_0000 && Pow2(24) == 0x100_0000 && Pow2(28) == 0x1000_0000
    ensures Pow2(118) == 0x40_0000_0000_0000_0000_0000_0000_0000 && Pow2(120) == 0x100_0000_0000_0000_0000_0000_0000_0000
  {
    PowersOfTwo();
    assert Pow2(24) == 0x1_0000 * 0x100 by { Pow2Add(16, 8); }
    assert Pow2(22) == 0x1_0000 * 64 by { Pow2Add(16, 6); assert Pow2(6) == 4 * Pow2(4); assert Pow2(4) == 16; }
    assert Pow2(54) == 0x1_0000_0000 * 0x40_0000 by { Pow2Add(32, 22); }
    assert Pow2(118) == 0x1_0000_0000_0000_0000 * 0x40_0000_0000_0000 by { Pow2Add(64, 54); }
    assert Pow2(28) == 0x100_0000 * 16 by { Pow2Add(24, 4); assert Pow2(4) == 16; }
    assert Pow2(120) == 4 * Pow2(118) by { assert Pow2(119) == 2 * Pow2(118); }
  }

  /** The header checksum field zeroed, then filled. */
  function Rechecksummed(p: Octets): (r: Octets)
    requires |p| >= 12 && HeaderLen(p) <= |p|
    ensures |r| == |p|
  {
    var zeroed := Put(p, 10, [0, 0]);
    Put(zeroed, 10, BE(2, Checksum(0, zeroed[..HeaderLen(p)])))
  }

  /** The packet one hop later, or why it stops here. */
  function Decremented(p: Octets): (r: Forwarding<Octets>)
    requires |p| >= 20 && IsV4(p) && p[8] > 1 ==> HeaderLen(p) <= |p|
  {
    if p == [] then Err(MalformedPacket)
    else if IsV4(p) then
      if |p| < 20 then Err(MalformedPacket)
      else if p[8] <= 1 then Err(TtlExpired)
      else Ok(Rechecksummed(p[8 := p[8] - 1]))
    else if IsV6(p) then
      if |p| < 40 then Err(MalformedPacket)
      else if p[7] <= 1 then Err(TtlExpired)
      else Ok(p[7 := p[7] - 1])
    else Err(MalformedPacket)
  }

  /** A packet that parses goes on exactly when its TTL or hop limit is at least two; otherwise it has expired. */
  lemma DecrementedExactly(p: Octets)
    requires Parse(p).Ok?
    ensures Decremented(p).Ok? <==> p[if p[0] / 16 == 4 then 8 else 7] >= 2
    ensures Decremented(p).Err? ==> Decremented(p).error == TtlExpired
  {
  }

  predicate HeaderVerifies(p: Octets)
    requires p != [] && HeaderLen(p) <= |p|
  {
    Verifies(0, p[..HeaderLen(p)])
  }

  lemma RechecksummedVerifies(p: Octets)
    requires p != [] && 12 <= HeaderLen(p) <= |p|
    ensures HeaderVerifies(Rechecksummed(p))
    ensures forall k :: 0 <= k < |p| && k != 10 && k != 11 ==> Rechecksummed(p)[k] == p[k]
  {
    var n := HeaderLen(p);
    var zeroed := Put(p, 10, [0, 0]);
    var c := Checksum(0, zeroed[..n]);
    FilledVerifies(0, zeroed[..n], 10);
    assert Rechecksummed(p)[..n] == Put(zeroed[..n], 10, BE(2, c));
  }

  /** The field holds the checksum of the header around it. */
  lemma RechecksummedField(p: Octets)
    requires |p| >= 12 && HeaderLen(p) <= |p|
    ensures Rechecksummed(p)[10..12] == BE(2, Checksum(0, p[10 := 0][11 := 0][..p[0] % 16 * 4]))
  {
    assert p[10 := 0][11 := 0] == Put(p, 10, [0, 0]);
  }

  /** A hop lowers exactly the TTL or hop limit by one, touches no other octet but the IPv4 header checksum, leaves
      that verifying, and so keeps the packet's parse. */
  lemma DecrementedOnly(p: Octets)
    requires Parse(p).Ok? && Decremented(p).Ok?
    ensures var r := Decremented(p).value;
            && |r| == |p|
            && (IsV4(p) ==> r[8] == p[8] - 1 && HeaderVerifies(r)
                            && forall k :: 0 <= k < |p| && k !in {8, 10, 11} ==> r[k] == p[k])
            && (!IsV4(p) ==> r == p[7 := p[7] - 1])
            && Parse(r) == Parse(p)
  {
    var r := Decremented(p).value;
    if IsV4(p) {
      RechecksummedVerifies(p[8 := p[8] - 1]);
      assert r[12..16] == p[12..16] && r[16..20] == p[16..20];
    } else {
      assert r[8..24] == p[8..24] && r[24..40] == p[24..40];
      SameWalk(p, r, p[6], 40, 8);
    }
  }

  lemma {:induction false} SameWalk(p: Octets, r: Octets, next: Byte, offset: nat, rounds: nat)
    requires |r| == |p| && 40 <= offset && forall k :: 40 <= k < |p| ==> r[k] == p[k]
    ensures FinalProtocol(r, next, offset, rounds) == FinalProtocol(p, next, offset, rounds)
    decreases rounds
  {
    if rounds > 0 && IsExtension(next) && ExtensionLen(p, next, offset).Some? {
      SameWalk(p, r, p[offset], offset + ExtensionLen(p, next, offset).value, rounds - 1);
    }
  }

  /** `decrement_ttl` on the packet buffer itself. */
  method DecrementTtl(packet: array<Byte>) returns (r: Forwarding<()>)
    requires packet.Length >= 20 && IsV4(packet[..]) && packet[8] > 1 ==> HeaderLen(packet[..]) <= packet.Length
    modifies packet
    ensures var after := Decremented(old(packet[..]));
            if after.Ok? then r == Ok(()) && packet[..] == after.value
            else r == Err(after.error) && packet[..] == old(packet[..])
  {
    if packet.Length == 0 {
      return Err(MalformedPacket);
    }
    ghost var p := packet[..];
    if packet[0] / 16 == 4 {
      if packet.Length < 20 {
        return Err(MalformedPacket);
      }
      if packet[8] <= 1 {
        return Err(TtlExpired);
      }
      packet[8] := packet[8] - 1;
      assert packet[..] == p[8 := p[8] - 1];
      RecomputeIpv4Checksum(packet);
      return Ok(());
    } else if packet[0] / 16 == 6 {
      if packet.Length < 40 {
        return Err(MalformedPacket);
      }
      if packet[7] <= 1 {
        return Err(TtlExpired);
      }
      packet[7] := packet[7] - 1;
      assert packet[..] == p[7 := p[7] - 1];
      return Ok(());
    }
    return Err(MalformedPacket);
  }

  method RecomputeIpv4Checksum(packet: array<Byte>)
    requires packet.Length >= 12 && HeaderLen(packet[..]) <= packet.Length
    modifies packet
    ensures packet[..] == Rechecksummed(old(packet[..]))
  {
    ghost var p := packet[..];
    var ihl := packet[0] % 16 * 4;
    packet[10] := 0;
    packet[11] := 0;
    assert packet[..] == Put(p, 10, [0, 0]);
    assert packet[..ihl] == packet[..][..ihl];
    var checksum := SliceChecksum(packet[..ihl]);
    WordOf(checksum);
    packet[10] := checksum / 256;
    packet[11] := checksum % 256;
    assert packet[..] == Rechecksummed(p);
  }
}
