/** virtio-net frames and userspace TCP segmentation, src/forwarding/vnet.rs. */
module Segment {
  import opened Octets
  import opened Address
  import opened Rfc1071
  import opened Packet
  import Varint
  import opened Net

  datatype VnetHdr = VnetHdr(flags: Byte, gsoType: Byte, hdrLen: U16, gsoSize: U16, csumStart: U16, csumOffset: U16)

  datatype VnetError = Truncated | UnsupportedGso(kind: Byte) | Malformed

  const GSO_NONE: Byte := 0
  const GSO_TCPV4: Byte := 1
  const GSO_TCPV6: Byte := 4

  /** The sum of addresses, protocol and upper-layer length, by the family of the IP header. */
  function PseudoSum(ip: Octets, l4Len: nat): (sum: nat)
    requires ip != [] && |ip| >= if IsV4(ip) then 20 else 40
  {
    if IsV4(ip) then WordSum(ip[12..20]) + ip[9] + l4Len
    else WordSum(ip[8..40]) + ip[6] + l4Len
  }

  /** The pseudo-header itself: RFC 793 for IPv4, section 8.1 of RFC 8200 for IPv6. */
  function PseudoHeader(ip: Octets, l4Len: nat): Octets
    requires ip != [] && |ip| >= if IsV4(ip) then 20 else 40
  {
    if IsV4(ip) then ip[12..20] + [0, ip[9]] + BE(2, l4Len)
    else ip[8..40] + BE(4, l4Len) + [0, 0, 0, ip[6]]
  }

  /** The pseudo-header octet by octet. Over IPv4: source, destination, zero, protocol, length in two octets. Over IPv6: source,
      destination, length in four octets, three zeroes, next header. */
  lemma PseudoLayout(ip: Octets, l4Len: U16)
    requires ip != [] && |ip| >= if IsV4(ip) then 20 else 40
    ensures var h := PseudoHeader(ip, l4Len);
            if ip[0] / 16 == 4 then
              && |h| == 12 && (forall k :: 0 <= k < 8 ==> h[k] == ip[12 + k])
              && h[8] == 0 && h[9] == ip[9] && Value(h[10..]) == l4Len
            else
              && |h| == 40 && (forall k :: 0 <= k < 32 ==> h[k] == ip[8 + k])
              && Value(h[32..36]) == l4Len && h[36] == h[37] == h[38] == 0 && h[39] == ip[6]
  {
    var h := PseudoHeader(ip, l4Len);
    Varint.Powers();
    ValueOfBE(2, l4Len);
    ValueOfBE(4, l4Len);
    if IsV4(ip) {
      assert h[10..] == BE(2, l4Len);
    } else {
      assert h[32..36] == BE(4, l4Len);
    }
  }

  /** The upper-layer checksum of an IP packet, as a receiver recomputes it from the standards. */
  predicate TransportVerifies(p: Octets, ipLen: nat)
    requires p != [] && (if IsV4(p) then 20 else 40) <= ipLen <= |p|
  {
    Verifies(0, PseudoHeader(p[..ipLen], |p| - ipLen) + p[ipLen..])
  }

  lemma PseudoSumIsHeaderSum(ip: Octets, l4Len: U16)
    requires ip != [] && |ip| >= if IsV4(ip) then 20 else 40
    ensures WordSum(PseudoHeader(ip, l4Len)) == PseudoSum(ip, l4Len)
    ensures |PseudoHeader(ip, l4Len)| % 2 == 0
  {
    if IsV4(ip) {
      WordOf(l4Len);
      ProtocolSum(ip[9]);
      ThreeSums(ip[12..20], [0, ip[9]], BE(2, l4Len));
    } else {
      LongLength(l4Len);
      ProtocolSum(ip[6]);
      ThreeSums(ip[8..40], BE(4, l4Len), [0, 0, 0, ip[6]]);
    }
  }

  lemma ThreeSums(a: Octets, b: Octets, c: Octets)
    requires |a| % 2 == 0 && |b| % 2 == 0
    ensures WordSum(a + b + c) == WordSum(a) + WordSum(b) + WordSum(c)
  {
    WordSumConcat(a, b);
    WordSumConcat(a + b, c);
  }

  lemma ProtocolSum(proto: Byte)
    ensures WordSum([0, proto]) == proto && WordSum([0, 0, 0, proto]) == proto
  {
    assert WordSum([0, proto]) == proto + WordSum([0, proto][2..]);
    assert [0, 0, 0, proto][2..] == [0, proto];
  }

  lemma LongLength(x: U16)
    ensures WordSum(BE(4, x)) == x
  {
    BESplit(2, 2, x);
    assert ShiftRight(x, 2) == 0 by {
      assert ShiftRight(x, 2) == ShiftRight(x / 256, 1) == x / 256 / 256;
    }
    assert WordSum(BE(2, x)) == x && WordSum(BE(2, 0)) == 0 by {
      WordOf(x);
      WordOf(0);
    }
    WordSumConcat(BE(2, 0), BE(2, x));
  }

  /** The transport checksum field at `at` (from the start of the transport header) zeroed, then filled. */
  function TransportFilled(p: Octets, ipLen: nat, at: nat): (r: Octets)
    requires p != [] && (if IsV4(p) then 20 else 40) <= ipLen <= |p| && ipLen + at + 2 <= |p|
    ensures |r| == |p| && r[0] == p[0]
  {
    var zeroed := Put(p, ipLen + at, [0, 0]);
    assert zeroed[0] == p[0];
    Summed(zeroed, ipLen, at)
  }

  function Summed(p: Octets, ipLen: nat, at: nat): (r: Octets)
    requires p != [] && (if IsV4(p) then 20 else 40) <= ipLen <= |p| && ipLen + at + 2 <= |p|
    ensures |r| == |p| && r[0] == p[0]
  {
    Put(p, ipLen + at, BE(2, Checksum(PseudoSum(p[..ipLen], |p| - ipLen), p[ipLen..])))
  }

  lemma TransportFilledVerifies(p: Octets, ipLen: nat, at: nat)
    requires p != [] && (if IsV4(p) then 20 else 40) <= ipLen <= |p| && ipLen + at + 2 <= |p|
    requires at % 2 == 0 && |p| - ipLen <= 0xffff
    ensures TransportVerifies(TransportFilled(p, ipLen, at), ipLen)
  {
    Zeroed(p, ipLen + at);
    ZeroedFilled(Put(p, ipLen + at, [0, 0]), ipLen, at);
  }

  lemma Zeroed(p: Octets, at: nat)
    requires 0 < at && at + 2 <= |p|
    ensures var z := Put(p, at, [0, 0]); |z| == |p| && z[0] == p[0] && z[at] == 0 && z[at + 1] == 0
  {
  }

  /** Nothing but the two octets of the field changes, and they hold the one checksum of the rest, seeded as the standards
      define. */
  lemma TransportFilledOnly(p: Octets, ipLen: nat, at: nat)
    requires p != [] && (if IsV4(p) then 20 else 40) <= ipLen <= |p| && ipLen + at + 2 <= |p|
    ensures var r := TransportFilled(p, ipLen, at); var zeroed := Put(p, ipLen + at, [0, 0]);
            && |r| == |p| && (forall k :: 0 <= k < |p| && k != ipLen + at && k != ipLen + at + 1 ==> r[k] == p[k])
            && r[ipLen + at..ipLen + at + 2] == BE(2, Checksum(PseudoSum(p[..ipLen], |p| - ipLen), zeroed[ipLen..]))
  {
    var zeroed := Put(p, ipLen + at, [0, 0]);
    assert zeroed[..ipLen] == p[..ipLen];
    PutTwice(p, ipLen + at, [0, 0], BE(2, Checksum(PseudoSum(p[..ipLen], |p| - ipLen), zeroed[ipLen..])));
  }

  lemma PutTwice(p: Octets, at: nat, x: Octets, y: Octets)
    requires |x| == |y| && at + |y| <= |p|
    ensures var r := Put(Put(p, at, x), at, y);
            && |r| == |p| && r[at..at + |y|] == y && forall k :: 0 <= k < |p| && !(at <= k < at + |y|) ==> r[k] == p[k]
  {
  }

  lemma ZeroedFilled(p: Octets, ipLen: nat, at: nat)
    requires p != [] && (if IsV4(p) then 20 else 40) <= ipLen <= |p| && ipLen + at + 2 <= |p|
    requires at % 2 == 0 && |p| - ipLen <= 0xffff && p[ipLen + at] == 0 && p[ipLen + at + 1] == 0
    ensures var r := Summed(p, ipLen, at); IsV4(r) == IsV4(p) && TransportVerifies(r, ipLen)
  {
    var ip, l4 := p[..ipLen], p[ipLen..];
    var sum := BE(2, Checksum(PseudoSum(ip, |l4|), l4));
    PutAfter(p, ipLen, at, sum);
    FilledVerifies(PseudoSum(ip, |l4|), l4, at);
    SplitVerifies(Put(p, ipLen + at, sum), ipLen);
  }

  /** A transport part that verifies under the seed verifies behind the pseudo-header. */
  lemma SplitVerifies(r: Octets, ipLen: nat)
    requires r != [] && (if IsV4(r) then 20 else 40) <= ipLen <= |r| && |r| - ipLen <= 0xffff
    requires Verifies(PseudoSum(r[..ipLen], |r| - ipLen), r[ipLen..])
    ensures TransportVerifies(r, ipLen)
  {
    PseudoFold(r[..ipLen], r[ipLen..]);
  }

  lemma PutAfter(p: Octets, ipLen: nat, at: nat, v: Octets)
    requires |v| == 2 && ipLen + at + 2 <= |p|
    ensures Put(p, ipLen + at, v)[..ipLen] == p[..ipLen]
    ensures Put(p, ipLen + at, v)[ipLen..] == Put(p[ipLen..], at, v)
  {
  }

  /** Seeding with the pseudo-header sum is summing the pseudo-header in front. */
  lemma PseudoFold(ip: Octets, l4: Octets)
    requires ip != [] && |ip| >= (if IsV4(ip) then 20 else 40) && |l4| <= 0xffff
    ensures Checksum(0, PseudoHeader(ip, |l4|) + l4) == Checksum(PseudoSum(ip, |l4|), l4)
  {
    PseudoSumIsHeaderSum(ip, |l4|);
    WordSumConcat(PseudoHeader(ip, |l4|), l4);
  }

  /** Where the headers of a TCP aggregate end. */
  datatype Split = Split(ipLen: nat, tcpLen: nat) {
    function Headers(): nat {
      ipLen + tcpLen
    }
  }

  /** The guards of `segment_tcp`, in order. */
  function SplitFrame(frame: Octets, mss: nat): (r: Result<Split, VnetError>)
    ensures r.Ok? ==> mss > 0 && r.value.tcpLen >= 20 && r.value.Headers() < |frame|
    ensures r.Ok? ==> |frame| >= r.value.ipLen + 20 && (IsV4(frame) || IsV6(frame))
    ensures r.Ok? ==> r.value.ipLen == if IsV4(frame) then HeaderLen(frame) else 40
    ensures r.Ok? ==> r.value.ipLen % 4 == 0 && r.value.tcpLen == frame[r.value.ipLen + 12] / 16 * 4
  {
    if mss == 0 || frame == [] then Err(Malformed)
    else if !(IsV4(frame) && |frame| >= 20) && !(IsV6(frame) && |frame| >= 40) then Err(Malformed)
    else
      var ipLen := if IsV4(frame) then HeaderLen(frame) else 40;
      if |frame| < ipLen + 20 then Err(Truncated)
      else
        var tcpLen := frame[ipLen + 12] / 16 * 4;
        if tcpLen < 20 || |frame| <= ipLen + tcpLen then Err(Malformed) else Ok(Split(ipLen, tcpLen))
  }

  /** Which frames are segmented, and why others are not: an IP header that is there, a TCP header of at least five words
      after it, and a payload after that. */
  lemma SplitExactly(frame: Octets, mss: nat)
    ensures var r := SplitFrame(frame, mss);
            var ip := frame != [] && ((frame[0] / 16 == 4 && |frame| >= 20) || (frame[0] / 16 == 6 && |frame| >= 40));
            var ipLen := if ip && frame[0] / 16 == 4 then frame[0] % 16 * 4 else 40;
            var tcp := ip && |frame| >= ipLen + 20;
            var tcpLen := if tcp then frame[ipLen + 12] / 16 * 4 else 0;
            && (r.Ok? <==> mss > 0 && tcp && tcpLen >= 20 && |frame| > ipLen + tcpLen)
            && (r.Ok? ==> r.value == Split(ipLen, tcpLen))
            && (r == Err(Truncated) <==> mss > 0 && ip && !tcp)
            && (r.Err? ==> r.error == Truncated || r.error == Malformed)
  {
  }

  /** A frame the kernel hands over: an IPv4 header of at least five words. */
  predicate KernelFrame(frame: Octets) {
    frame != [] && IsV4(frame) ==> HeaderLen(frame) >= 20
  }

  /** What `segment_tcp` works on once its guards pass. */
  predicate Aggregate(frame: Octets, mss: nat, split: Split) {
    KernelFrame(frame) && SplitFrame(frame, mss) == Ok(split)
  }

  /** How many stretches of at most `mss` octets a payload of `len` octets makes. */
  function SegmentCount(len: nat, mss: nat): (n: nat)
    requires mss > 0
    ensures n == 0 <==> len == 0
    ensures n > 1 <==> len > mss
  {
    if len == 0 then 0 else if len <= mss then 1 else 1 + SegmentCount(len - mss, mss)
  }

  /** The low `n` bits of `f`, least significant first. */
  function Bits(f: nat, n: nat): (b: seq<bool>)
    ensures |b| == n
  {
    if n == 0 then [] else [f % 2 == 1] + Bits(f / 2, n - 1)
  }

  function FromBits(b: seq<bool>): (f: nat) {
    if b == [] then 0 else (if b[0] then 1 else 0) + 2 * FromBits(b[1..])
  }

  lemma {:induction false} BitsOfFromBits(b: seq<bool>)
    ensures Bits(FromBits(b), |b|) == b
    ensures FromBits(b) < Pow2(|b|)
  {
    if b != [] {
      BitsOfFromBits(b[1..]);
      assert FromBits(b) / 2 == FromBits(b[1..]);
    }
  }

  /** `flags & !(1 << bit)`. */
  function Cleared(flags: Byte, bit: nat): (r: Byte)
    requires bit < 8
    ensures Bits(r, 8) == Bits(flags, 8)[bit := false]
  {
    var b := Bits(flags, 8)[bit := false];
    BitsOfFromBits(b);
    PowersOfTwo();
    FromBits(b)
  }

  const FIN: nat := 0
  const PSH: nat := 3
  const CWR: nat := 7

  /** FIN and PSH survive only on the last segment, CWR only on the first. */
  function SegmentFlags(flags: Byte, first: bool, last: bool): Byte {
    var tail := if last then flags else Cleared(Cleared(flags, PSH), FIN);
    if first then tail else Cleared(tail, CWR)
  }

  /** The `i`-th stretch of the payload. */
  function Chunk(payload: Octets, mss: nat, i: nat): (c: Octets)
    requires mss > 0 && i < SegmentCount(|payload|, mss)
    ensures 0 < |c| <= mss && |c| <= |payload|
  {
    if i == 0 then payload[..Min(mss, |payload|)] else Chunk(payload[mss..], mss, i - 1)
  }

  /** Where chunk `i` starts: `i * mss`. */
  function Offset(mss: nat, i: nat): nat {
    if i == 0 then 0 else mss + Offset(mss, i - 1)
  }

  lemma {:induction false} OffsetIsProduct(mss: nat, i: nat)
    ensures Offset(mss, i) == i * mss
  {
    if i > 0 {
      OffsetIsProduct(mss, i - 1);
    }
  }

  /** IP header of a segment: length, identification and header checksum (IPv4), or payload length (IPv6). */
  function IpRewritten(seg: Octets, split: Split, id: nat): (r: Octets)
    requires seg != [] && (if IsV4(seg) then 20 else 40) <= split.ipLen <= |seg|
    requires IsV4(seg) ==> split.ipLen == HeaderLen(seg)
    ensures |r| == |seg| && r[0] == seg[0]
  {
    if IsV4(seg) then Rechecksummed(Put(Put(seg, 2, BE(2, |seg|)), 4, BE(2, id)))
    else Put(seg, 4, BE(2, |seg| - split.ipLen))
  }

  /** TCP header of a segment: sequence number, flags, checksum. */
  function TcpRewritten(seg: Octets, split: Split, number: nat, flags: Byte): (r: Octets)
    requires seg != [] && (if IsV4(seg) then 20 else 40) <= split.ipLen && split.ipLen + 20 <= |seg|
    ensures |r| == |seg|
  {
    var numbered := Put(seg, split.ipLen + 4, BE(4, number));
    var flagged := Put(numbered, split.ipLen + 13, [flags]);
    TransportFilled(flagged, split.ipLen, 16)
  }

  /** A segment's headers as `segment_tcp` finds them before it rewrites them. */
  predicate Framed(whole: Octets, split: Split) {
    && whole != [] && (if IsV4(whole) then 20 else 40) <= split.ipLen && 20 <= split.tcpLen && split.Headers() <= |whole|
    && (IsV4(whole) ==> split.ipLen == HeaderLen(whole))
  }

  /** The numbers a segment gets: IPv4 identification, sequence number, flags. */
  datatype Fields = Fields(id: nat, number: nat, flags: Byte)

  function Rewrite(whole: Octets, split: Split, f: Fields): (seg: Octets)
    requires Framed(whole, split)
    ensures |seg| == |whole|
  {
    TcpRewritten(IpRewritten(whole, split, f.id), split, f.number, f.flags)
  }

  /** The aggregate's headers in front of chunk `i`. */
  function Unrewritten(frame: Octets, mss: nat, split: Split, i: nat): (seg: Octets)
    requires Aggregate(frame, mss, split) && i < SegmentCount(|frame| - split.Headers(), mss)
    ensures split.Headers() < |seg| <= |frame| && seg[0] == frame[0] && Framed(seg, split)
    ensures seg[..split.Headers()] == frame[..split.Headers()]
    ensures seg[split.Headers()..] == Chunk(frame[split.Headers()..], mss, i)
  {
    frame[..split.Headers()] + Chunk(frame[split.Headers()..], mss, i)
  }

  /** The flags of segment `i`. */
  function FlagsAt(frame: Octets, mss: nat, split: Split, i: nat): Byte
    requires Aggregate(frame, mss, split)
  {
    SegmentFlags(frame[split.ipLen + 13], i == 0, i == SegmentCount(|frame| - split.Headers(), mss) - 1)
  }

  /** The sequence number of segment `i`, before reduction mod 2^32. */
  function NumberAt(frame: Octets, mss: nat, split: Split, i: nat): nat
    requires Aggregate(frame, mss, split)
  {
    Value(frame[split.ipLen + 4..split.ipLen + 8]) + Offset(mss, i)
  }

  function FieldsAt(frame: Octets, mss: nat, split: Split, i: nat): Fields
    requires Aggregate(frame, mss, split)
  {
    Fields(Word(frame[4], frame[5]) + i, NumberAt(frame, mss, split, i), FlagsAt(frame, mss, split, i))
  }

  /** The `i`-th output packet. */
  function SegmentAt(frame: Octets, mss: nat, split: Split, i: nat): (seg: Octets)
    requires Aggregate(frame, mss, split) && i < SegmentCount(|frame| - split.Headers(), mss)
    ensures |seg| == |Unrewritten(frame, mss, split, i)|
  {
    Rewrite(Unrewritten(frame, mss, split, i), split, FieldsAt(frame, mss, split, i))
  }
}
