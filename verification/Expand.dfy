/** `expand` and `segment_tcp` as they run: a loop that copies headers and chunk into a fresh buffer, patches it and
    pushes it, src/forwarding/vnet.rs. */
module Expand {
  import opened Octets
  import opened Rfc1071
  import opened Packet
  import opened Segment
  import opened SegmentTheorems

  lemma OnePart(data: Octets)
    ensures Sums([data]) == WordSum(data)
  {
    assert [data][1..] == [];
  }

  method PutU16(seg: Octets, at: nat, v: nat) returns (r: Octets)
    requires at + 2 <= |seg|
    ensures r == Put(seg, at, BE(2, v))
  {
    r := seg[..at] + BE(2, v) + seg[at + 2..];
  }

  method ZeroU16(seg: Octets, at: nat) returns (r: Octets)
    requires at + 2 <= |seg|
    ensures r == Put(seg, at, [0, 0])
  {
    r := seg[at := 0][at + 1 := 0];
  }

  method RewriteIp(whole: Octets, split: Split, id: nat) returns (seg: Octets)
    requires whole != [] && (if IsV4(whole) then 20 else 40) <= split.ipLen <= |whole|
    requires IsV4(whole) ==> split.ipLen == HeaderLen(whole)
    ensures seg == IpRewritten(whole, split, id)
  {
    if whole[0] / 16 == 4 {
      seg := PutU16(whole, 2, |whole|);
      seg := PutU16(seg, 4, id);
      seg := ZeroU16(seg, 10);
      var sum := SliceChecksum(seg[..split.ipLen]);
      seg := PutU16(seg, 10, sum);
    } else {
      seg := PutU16(whole, 4, |whole| - split.ipLen);
    }
  }

  /** Complete the transport checksum `at` octets into the transport header. */
  method FillTransport(packet: Octets, ipLen: nat, at: nat) returns (r: Octets)
    requires packet != [] && (if IsV4(packet) then 20 else 40) <= ipLen <= |packet| && ipLen + at + 2 <= |packet|
    requires |packet| <= 0x1_8000
    ensures r == TransportFilled(packet, ipLen, at)
  {
    r := ZeroU16(packet, ipLen + at);
    var sum := TransportSum(r[..ipLen], r[ipLen..]);
    r := PutU16(r, ipLen + at, sum);
  }

  /** The checksum seeded with the pseudo-header. */
  method TransportSum(ip: Octets, l4: Octets) returns (sum: U16)
    requires ip != [] && |ip| >= (if IsV4(ip) then 20 else 40) && |l4| <= 0x1_8000
    ensures sum == Checksum(PseudoSum(ip, |l4|), l4)
  {
    NoOverflow(ip, l4);
    sum := InternetChecksum(PseudoSum(ip, |l4|), [l4]);
  }

  /** The 32-bit register cannot overflow on anything the device hands over. */
  lemma NoOverflow(ip: Octets, l4: Octets)
    requires ip != [] && |ip| >= (if IsV4(ip) then 20 else 40) && |l4| <= 0x1_8000
    ensures PseudoSum(ip, |l4|) + Sums([l4]) < 0x1_0000_0000 && Sums([l4]) == WordSum(l4)
  {
    WordSumBound(l4);
    OnePart(l4);
    if IsV4(ip) {
      WordSumBound(ip[12..20]);
    } else {
      WordSumBound(ip[8..40]);
    }
  }

  method RewriteTcp(ip: Octets, split: Split, number: nat, flags: Byte) returns (seg: Octets)
    requires ip != [] && (if IsV4(ip) then 20 else 40) <= split.ipLen && split.ipLen + 20 <= |ip| <= 0x1_8000
    ensures seg == TcpRewritten(ip, split, number, flags)
  {
    var t := split.ipLen;
    seg := ip[..t + 4] + BE(4, number) + ip[t + 8..];
    assert seg == Put(ip, t + 4, BE(4, number));
    ghost var numbered := seg;
    seg := seg[t + 13 := flags];
    assert seg == Put(numbered, t + 13, [flags]);
    seg := FillTransport(seg, t, 16);
  }

  /** The chunk iterator: what is left after `i` chunks yields the later chunks. */
  ghost predicate Remaining(rest: Octets, payload: Octets, mss: nat, i: nat)
    requires mss > 0
  {
    var n := SegmentCount(|payload|, mss);
    && i <= n && SegmentCount(|rest|, mss) == n - i
    && forall j :: 0 <= j < n - i ==> Chunk(payload, mss, i + j) == Chunk(rest, mss, j)
  }

  lemma RemainingNext(rest: Octets, payload: Octets, mss: nat, i: nat)
    requires mss > 0 && Remaining(rest, payload, mss, i) && rest != []
    ensures Remaining(rest[Min(mss, |rest|)..], payload, mss, i + 1)
    ensures Chunk(payload, mss, i) == rest[..Min(mss, |rest|)]
  {
    var n := SegmentCount(|payload|, mss);
    assert Chunk(payload, mss, i + 0) == Chunk(rest, mss, 0);
    forall j | 0 <= j < n - (i + 1)
      ensures Chunk(payload, mss, i + 1 + j) == Chunk(rest[mss..], mss, j)
    {
      assert Chunk(payload, mss, i + (1 + j)) == Chunk(rest, mss, 1 + j);
    }
  }

  /** `segment_tcp`: refuse, or append a correct segmentation of the aggregate. */
  method SegmentTcp(gsoSize: U16, frame: Octets, out: seq<Octets>) returns (r: Result<(), VnetError>, out': seq<Octets>)
    requires KernelFrame(frame)
    ensures var split := SplitFrame(frame, gsoSize);
            if split.Err? then r == Err(split.error) && out' == out
            else r == Ok(()) && out <= out' && Segmentation(out'[|out|..], frame, gsoSize, split.value)
  {
    var mss := gsoSize;
    var split := SplitFrame(frame, mss);
    if split.Err? {
      return Err(split.error), out;
    }
    var made := MakeSegments(frame, mss, split.value);
    out' := out + made;
    assert out'[|out|..] == made;
    r := Ok(());
  }

  /** The loop over the payload's chunks. */
  method MakeSegments(frame: Octets, mss: nat, s: Split) returns (made: seq<Octets>)
    requires Aggregate(frame, mss, s) && mss <= 0xffff
    ensures Segmentation(made, frame, mss, s)
  {
    var payload := frame[s.Headers()..];
    made := [];
    var rest := payload;
    while rest != []
      invariant Remaining(rest, payload, mss, |made|)
      invariant forall k :: 0 <= k < |made| ==> SegmentOf(made[k], frame, mss, s, k)
      decreases |rest|
    {
      var chunk := rest[..Min(mss, |rest|)];
      RemainingNext(rest, payload, mss, |made|);
      var seg := MakeSegment(frame, mss, s, |made|, chunk);
      made := made + [seg];
      rest := rest[|chunk|..];
    }
  }

  /** One turn of the loop. */
  method MakeSegment(frame: Octets, mss: nat, split: Split, i: nat, chunk: Octets) returns (seg: Octets)
    requires Aggregate(frame, mss, split) && mss <= 0xffff
    requires i < SegmentCount(|frame| - split.Headers(), mss) && chunk == Chunk(frame[split.Headers()..], mss, i)
    ensures SegmentOf(seg, frame, mss, split, i)
  {
    var whole := frame[..split.Headers()] + chunk;
    seg := PushSegment(whole, split, FieldsAt(frame, mss, split, i));
    SegmentCorrect(frame, mss, split, i);
  }

  /** Patch the IP header, then the TCP header. */
  method PushSegment(whole: Octets, split: Split, f: Fields) returns (seg: Octets)
    requires Framed(whole, split) && |whole| <= 0x1_8000
    ensures seg == Rewrite(whole, split, f)
  {
    seg := RewriteIp(whole, split, f.id);
    seg := RewriteTcp(seg, split, f.number, f.flags);
  }

  predicate NeedsCsum(hdr: VnetHdr) {
    hdr.flags % 2 == 1
  }

  /** What the device promises about a frame: a sane IPv4 header length, and where it left a checksum partial, a whole
      IP header before it, within 64 KiB. */
  predicate DeviceFrame(hdr: VnetHdr, frame: Octets) {
    && KernelFrame(frame)
    && (hdr.gsoType == GSO_NONE && NeedsCsum(hdr) ==>
          frame != [] && |frame| <= 0xffff && (if IsV4(frame) then 20 else 40) <= hdr.csumStart)
  }

  /** `expand`: pass through, complete a partial checksum, re-segment, or refuse. */
  method Expand(hdr: VnetHdr, frame: Octets, out: seq<Octets>) returns (r: Result<(), VnetError>, out': seq<Octets>)
    requires DeviceFrame(hdr, frame)
    ensures r.Err? ==> out' == out
    ensures hdr.gsoType == GSO_NONE && !NeedsCsum(hdr) ==> r.Ok? && out' == out + [frame]
    ensures hdr.gsoType == GSO_NONE && NeedsCsum(hdr) ==>
              if hdr.csumStart + hdr.csumOffset + 2 > |frame| then r == Err(Truncated)
              else r.Ok? && out' == out + [TransportFilled(frame, hdr.csumStart, hdr.csumOffset)]
    ensures hdr.gsoType == GSO_NONE && NeedsCsum(hdr) && r.Ok? && hdr.csumOffset % 2 == 0 ==>
              var done := out'[|out|]; |done| == |frame| && done[0] == frame[0] && TransportVerifies(done, hdr.csumStart)
    ensures hdr.gsoType in {GSO_TCPV4, GSO_TCPV6} ==>
              var split := SplitFrame(frame, hdr.gsoSize);
              if split.Err? then r == Err(split.error)
              else r.Ok? && out <= out' && Segmentation(out'[|out|..], frame, hdr.gsoSize, split.value)
    ensures hdr.gsoType !in {GSO_NONE, GSO_TCPV4, GSO_TCPV6} ==> r == Err(UnsupportedGso(hdr.gsoType))
  {
    if hdr.gsoType == GSO_NONE {
      if !NeedsCsum(hdr) {
        return Ok(()), out + [frame];
      }
      var start, at := hdr.csumStart, hdr.csumOffset;
      if start + at + 2 > |frame| {
        return Err(Truncated), out;
      }
      var packet := FillTransport(frame, start, at);
      if at % 2 == 0 {
        TransportFilledVerifies(frame, start, at);
      }
      return Ok(()), out + [packet];
    } else if hdr.gsoType == GSO_TCPV4 || hdr.gsoType == GSO_TCPV6 {
      r, out' := SegmentTcp(hdr.gsoSize, frame, out);
    } else {
      return Err(UnsupportedGso(hdr.gsoType)), out;
    }
  }
}
