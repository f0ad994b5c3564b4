/** What re-segmentation promises: the same TCP byte stream, in packets every receiver accepts. */
module SegmentTheorems {
  import opened Octets
  import opened Address
  import opened Rfc1071
  import opened Packet
  import opened Segment
  import Varint

  /** The octets of a header that re-segmentation rewrites. */
  predicate Rewritten(v4: bool, t: nat, k: nat) {
    || (v4 && (k in {2, 3, 4, 5, 10, 11})) || (!v4 && (k == 4 || k == 5))
    || t + 4 <= k < t + 8 || k == t + 13 || k == t + 16 || k == t + 17
  }

  /** `r` differs from `seg` by a fresh IP length, identification and header checksum. */
  predicate IpFields(r: Octets, seg: Octets, t: nat, id: nat)
    requires seg != [] && |r| == |seg| && 20 <= t <= |seg|
  {
    && (IsV4(seg) ==> r[2..4] == BE(2, |seg|) && r[4..6] == BE(2, id))
    && (!IsV4(seg) ==> r[4..6] == BE(2, |seg| - t))
    && (forall k :: 0 <= k < |seg| && !(IsV4(seg) && k in {2, 3, 4, 5, 10, 11}) && !(!IsV4(seg) && (k == 4 || k == 5)) ==>
          r[k] == seg[k])
  }

  /** `r` differs from `seg` by a sequence number, flags and transport checksum. */
  predicate TcpFields(r: Octets, seg: Octets, t: nat, number: nat, flags: Byte)
    requires |r| == |seg| && 20 <= t && t + 20 <= |seg|
  {
    && r[t + 4..t + 8] == BE(4, number) && r[t + 13] == flags
    && (forall k :: 0 <= k < |seg| && !(t + 4 <= k < t + 8) && k != t + 13 && k != t + 16 && k != t + 17 ==> r[k] == seg[k])
  }

  /** Both rewrites together. */
  predicate Carries(r: Octets, seg: Octets, t: nat, id: nat, number: nat, flags: Byte)
    requires |r| == |seg| && 20 <= t && t + 20 <= |seg|
  {
    && r[t + 4..t + 8] == BE(4, number) && r[t + 13] == flags
    && (IsV4(seg) ==> r[2..4] == BE(2, |seg|) && r[4..6] == BE(2, id))
    && (!IsV4(seg) ==> r[4..6] == BE(2, |seg| - t))
    && (forall k :: 0 <= k < |seg| && !Rewritten(IsV4(seg), t, k) ==> r[k] == seg[k])
  }

  /** The checksums a receiver of `r` recomputes. */
  predicate Checks(r: Octets, t: nat)
    requires r != [] && (if IsV4(r) then 20 else 40) <= t <= |r|
  {
    && (IsV4(r) ==> t == HeaderLen(r) && HeaderVerifies(r))
    && (|r| - t <= 0xffff ==> TransportVerifies(r, t))
  }

  lemma IpRewrittenFields(seg: Octets, split: Split, id: nat)
    requires seg != [] && (if IsV4(seg) then 20 else 40) <= split.ipLen <= |seg|
    requires IsV4(seg) ==> split.ipLen == HeaderLen(seg)
    ensures IpFields(IpRewritten(seg, split, id), seg, split.ipLen, id)
    ensures IsV4(seg) ==> HeaderVerifies(IpRewritten(seg, split, id))
  {
    if IsV4(seg) {
      var p := Put(Put(seg, 2, BE(2, |seg|)), 4, BE(2, id));
      RechecksummedVerifies(p);
    }
  }

  lemma TcpRewrittenFields(seg: Octets, split: Split, number: nat, flags: Byte)
    requires seg != [] && (if IsV4(seg) then 20 else 40) <= split.ipLen && split.ipLen + 20 <= |seg|
    ensures TcpFields(TcpRewritten(seg, split, number, flags), seg, split.ipLen, number, flags)
  {
  }

  lemma TcpRewrittenVerifies(seg: Octets, split: Split, number: nat, flags: Byte)
    requires seg != [] && (if IsV4(seg) then 20 else 40) <= split.ipLen && split.ipLen + 20 <= |seg|
    requires |seg| - split.ipLen <= 0xffff
    ensures var r := TcpRewritten(seg, split, number, flags);
            && r[0] == seg[0] && TransportVerifies(r, split.ipLen)
  {
    var numbered := Put(seg, split.ipLen + 4, BE(4, number));
    var flagged := Put(numbered, split.ipLen + 13, [flags]);
    TransportFilledVerifies(flagged, split.ipLen, 16);
  }

  lemma Compose(r: Octets, ip: Octets, seg: Octets, t: nat, id: nat, number: nat, flags: Byte)
    requires |r| == |ip| == |seg| && 20 <= t && t + 20 <= |seg|
    requires IpFields(ip, seg, t, id) && TcpFields(r, ip, t, number, flags)
    ensures Carries(r, seg, t, id, number, flags)
    ensures r[..t] == ip[..t]
  {
    assert r[2..4] == ip[2..4] && r[4..6] == ip[4..6];
  }

  /** `r` is `whole` with fresh fields, checksums that verify, and all that follows the TCP header untouched. */
  predicate Rebuilt(r: Octets, whole: Octets, split: Split, f: Fields)
    requires Framed(whole, split)
  {
    && |r| == |whole| && r[0] == whole[0] && Carries(r, whole, split.ipLen, f.id, f.number, f.flags) && Checks(r, split.ipLen)
    && r[split.Headers()..] == whole[split.Headers()..]
  }

  lemma CarriesTail(r: Octets, whole: Octets, split: Split, id: nat, number: nat, flags: Byte)
    requires Framed(whole, split) && |r| == |whole| && Carries(r, whole, split.ipLen, id, number, flags)
    ensures r[split.Headers()..] == whole[split.Headers()..]
  {
  }

  lemma RewrittenRebuilt(whole: Octets, split: Split, f: Fields)
    requires Framed(whole, split)
    ensures Rebuilt(Rewrite(whole, split, f), whole, split, f)
  {
    var ip := IpRewritten(whole, split, f.id);
    var r := TcpRewritten(ip, split, f.number, f.flags);
    IpRewrittenFields(whole, split, f.id);
    TcpRewrittenFields(ip, split, f.number, f.flags);
    Compose(r, ip, whole, split.ipLen, f.id, f.number, f.flags);
    CarriesTail(r, whole, split, f.id, f.number, f.flags);
    if |whole| - split.ipLen <= 0xffff {
      TcpRewrittenVerifies(ip, split, f.number, f.flags);
    }
  }

  /** `seg` is a correct `i`-th segment: chunk `i` under the aggregate's own headers, of which only the IP length,
      identification and checksum and the TCP sequence number, flags and checksum differ, and both checksums verify. */
  predicate SegmentOf(seg: Octets, frame: Octets, mss: nat, split: Split, i: nat)
    requires Aggregate(frame, mss, split) && i < SegmentCount(|frame| - split.Headers(), mss)
  {
    var whole := Unrewritten(frame, mss, split, i);
    && Rebuilt(seg, whole, split, FieldsAt(frame, mss, split, i))
    && seg[split.Headers()..] == Chunk(frame[split.Headers()..], mss, i)
  }

  /** The payload and the TCP fields of a correct segment. */
  lemma SegmentFields(seg: Octets, frame: Octets, mss: nat, split: Split, i: nat)
    requires Aggregate(frame, mss, split) && i < SegmentCount(|frame| - split.Headers(), mss)
    requires SegmentOf(seg, frame, mss, split, i)
    ensures split.ipLen + 20 <= split.Headers() < |seg|
    ensures seg[split.Headers()..] == Chunk(frame[split.Headers()..], mss, i)
    ensures seg[split.ipLen + 4..split.ipLen + 8] == BE(4, NumberAt(frame, mss, split, i))
    ensures seg[split.ipLen + 13] == FlagsAt(frame, mss, split, i)
  {
  }

  predicate Segmentation(out: seq<Octets>, frame: Octets, mss: nat, split: Split)
    requires Aggregate(frame, mss, split)
  {
    && |out| == SegmentCount(|frame| - split.Headers(), mss)
    && forall i :: 0 <= i < |out| ==> SegmentOf(out[i], frame, mss, split, i)
  }

  /** What `segment_tcp` builds for index `i` is a correct segment, for every aggregate it accepts. */
  lemma SegmentCorrect(frame: Octets, mss: nat, split: Split, i: nat)
    requires Aggregate(frame, mss, split) && i < SegmentCount(|frame| - split.Headers(), mss)
    ensures SegmentOf(SegmentAt(frame, mss, split, i), frame, mss, split, i)
  {
    RewrittenRebuilt(Unrewritten(frame, mss, split, i), split, FieldsAt(frame, mss, split, i));
    Assemble(SegmentAt(frame, mss, split, i), frame, mss, split, i);
  }

  lemma Assemble(seg: Octets, frame: Octets, mss: nat, split: Split, i: nat)
    requires Aggregate(frame, mss, split) && i < SegmentCount(|frame| - split.Headers(), mss)
    requires Rebuilt(seg, Unrewritten(frame, mss, split, i), split, FieldsAt(frame, mss, split, i))
    ensures SegmentOf(seg, frame, mss, split, i)
  {
  }

  /** The IP header of segment `i`: its own length, and over IPv4 the aggregate's identification plus `i`, modulo 2^16. Of the
      aggregate's headers only those fields, the TCP sequence number and flags and the checksums differ. */
  lemma SegmentHeader(seg: Octets, frame: Octets, mss: nat, split: Split, i: nat)
    requires Aggregate(frame, mss, split) && i < SegmentCount(|frame| - split.Headers(), mss)
    requires SegmentOf(seg, frame, mss, split, i)
    ensures Headed(seg, frame, split, Word(frame[4], frame[5]) + i)
  {
    UnrewrittenHeaders(frame, mss, split, i);
    RebuiltHeader(seg, Unrewritten(frame, mss, split, i), frame, split, FieldsAt(frame, mss, split, i));
  }

  predicate Headed(seg: Octets, frame: Octets, split: Split, id: nat) {
    && frame != [] && 40 <= split.ipLen + 20 <= split.Headers() <= |seg| && split.Headers() <= |frame|
    && (if IsV4(frame) then seg[2..4] == BE(2, |seg|) && seg[4..6] == BE(2, id)
        else split.ipLen == 40 && seg[4..6] == BE(2, |seg| - 40))
    && (forall k :: 0 <= k < split.Headers() && !Rewritten(IsV4(frame), split.ipLen, k) ==> seg[k] == frame[k])
  }

  lemma UnrewrittenHeaders(frame: Octets, mss: nat, split: Split, i: nat)
    requires Aggregate(frame, mss, split) && i < SegmentCount(|frame| - split.Headers(), mss)
    ensures Begins(Unrewritten(frame, mss, split, i), frame, split)
  {
  }

  /** `whole` begins with the headers of `frame`. */
  predicate Begins(whole: Octets, frame: Octets, split: Split) {
    && whole != [] && frame != [] && 20 <= split.ipLen && 20 <= split.tcpLen
    && split.Headers() <= |whole| && split.Headers() <= |frame| && (!IsV4(frame) ==> split.ipLen == 40)
    && forall k :: 0 <= k < split.Headers() ==> whole[k] == frame[k]
  }

  lemma RebuiltHeader(r: Octets, whole: Octets, frame: Octets, split: Split, f: Fields)
    requires Framed(whole, split) && Rebuilt(r, whole, split, f) && Begins(whole, frame, split)
    ensures Headed(r, frame, split, f.id)
  {
    CarriedHeader(r, whole, frame, split, f.id, f.number, f.flags);
  }

  lemma CarriedHeader(r: Octets, whole: Octets, frame: Octets, split: Split, id: nat, number: nat, flags: Byte)
    requires Begins(whole, frame, split) && |r| == |whole| && Carries(r, whole, split.ipLen, id, number, flags)
    ensures Headed(r, frame, split, id)
  {
  }

  /** No two of 65536 consecutive segments of an IPv4 aggregate share an identification. */
  lemma IdentificationsDiffer(a: Octets, b: Octets, frame: Octets, mss: nat, split: Split, i: nat, j: nat)
    requires Aggregate(frame, mss, split) && IsV4(frame) && i < j < SegmentCount(|frame| - split.Headers(), mss)
    requires SegmentOf(a, frame, mss, split, i) && SegmentOf(b, frame, mss, split, j) && j - i < 0x1_0000
    ensures |a| > 6 && |b| > 6 && a[4..6] != b[4..6]
  {
    SegmentHeader(a, frame, mss, split, i);
    SegmentHeader(b, frame, mss, split, j);
    HeadsDiffer(a, b, frame, split, Word(frame[4], frame[5]) + i, Word(frame[4], frame[5]) + j);
  }

  lemma HeadsDiffer(a: Octets, b: Octets, frame: Octets, split: Split, x: nat, y: nat)
    requires frame != [] && IsV4(frame) && Headed(a, frame, split, x) && Headed(b, frame, split, y) && x < y < x + 0x1_0000
    ensures |a| > 6 && |b| > 6 && a[4..6] != b[4..6]
  {
    WordsDiffer(x, y);
  }

  lemma WordsDiffer(x: nat, y: nat)
    requires x < y && y - x < 0x1_0000
    ensures BE(2, x) != BE(2, y)
  {
    Varint.Powers();
    ValueOfBE(2, x);
    ValueOfBE(2, y);
  }

  /** The count is the ceiling of the quotient. */
  lemma {:induction false} CountIsCeiling(len: nat, mss: nat)
    requires mss > 0
    ensures SegmentCount(len, mss) == (len + mss - 1) / mss
    ensures len > 0 ==> (SegmentCount(len, mss) - 1) * mss < len <= SegmentCount(len, mss) * mss
  {
    var n := SegmentCount(len, mss);
    if len == 0 {
      QuotientUnique(mss - 1, mss, 0, mss - 1);
    } else if len <= mss {
      QuotientUnique(len + mss - 1, mss, 1, len - 1);
    } else {
      CountIsCeiling(len - mss, mss);
      var r := (len - 1) % mss;
      assert len - mss + mss - 1 == mss * (n - 1) + r;
      Distribute(mss, n, -1);
      Distribute(mss, n - 1, -1);
      QuotientUnique(len + mss - 1, mss, n, r);
    }
  }

  function Flatten(parts: seq<Octets>): Octets {
    if parts == [] then [] else parts[0] + Flatten(parts[1..])
  }

  /** The stretches `payload.chunks(mss)` yields. */
  function Chunks(payload: Octets, mss: nat): (cs: seq<Octets>)
    requires mss > 0
    ensures |cs| == SegmentCount(|payload|, mss)
    ensures forall k :: 0 <= k < |cs| ==> cs[k] == Chunk(payload, mss, k)
    decreases |payload|
  {
    if payload == [] then []
    else if |payload| <= mss then [Chunk(payload, mss, 0)]
    else
      var rest := Chunks(payload[mss..], mss);
      assert forall k :: 0 < k <= |rest| ==> Chunk(payload, mss, k) == rest[k - 1];
      [Chunk(payload, mss, 0)] + rest
  }

  lemma {:induction false} ChunksFlatten(payload: Octets, mss: nat)
    requires mss > 0
    ensures Flatten(Chunks(payload, mss)) == payload
    decreases |payload|
  {
    var cs := Chunks(payload, mss);
    if payload == [] {
    } else if |payload| <= mss {
      assert payload[..|payload|] == payload;
      assert cs[1..] == [];
    } else {
      ChunksFlatten(payload[mss..], mss);
      assert cs[1..] == Chunks(payload[mss..], mss);
      assert payload[..mss] + payload[mss..] == payload;
    }
  }

  /** The payload of every output packet, in order. */
  function Payloads(out: seq<Octets>, h: nat): (ps: seq<Octets>)
    requires forall i :: 0 <= i < |out| ==> h <= |out[i]|
  {
    seq(|out|, i requires 0 <= i < |out| => out[i][h..])
  }

  lemma ChunksJoin(out: seq<Octets>, payload: Octets, mss: nat, h: nat)
    requires mss > 0 && |out| == SegmentCount(|payload|, mss)
    requires forall i :: 0 <= i < |out| ==> h < |out[i]| && out[i][h..] == Chunk(payload, mss, i)
    ensures forall i :: 0 <= i < |out| ==> h < |out[i]| <= h + mss
    ensures Flatten(Payloads(out, h)) == payload
  {
    assert Payloads(out, h) == Chunks(payload, mss);
    ChunksFlatten(payload, mss);
  }

  /** The segment payloads, none empty and none over `mss`, concatenate to the aggregate's payload. */
  lemma PayloadPreserved(out: seq<Octets>, frame: Octets, mss: nat, split: Split)
    requires Aggregate(frame, mss, split) && Segmentation(out, frame, mss, split)
    ensures var h := split.Headers();
            && (forall i :: 0 <= i < |out| ==> h < |out[i]| <= h + mss)
            && Flatten(Payloads(out, h)) == frame[h..]
  {
    var h := split.Headers();
    forall i | 0 <= i < |out|
      ensures h < |out[i]| && out[i][h..] == Chunk(frame[h..], mss, i)
    {
      SegmentFields(out[i], frame, mss, split, i);
    }
    ChunksJoin(out, frame[h..], mss, h);
  }

  lemma {:induction false} ChunkOctet(payload: Octets, mss: nat, i: nat, k: nat)
    requires mss > 0 && i < SegmentCount(|payload|, mss) && k < |Chunk(payload, mss, i)|
    ensures Offset(mss, i) + k < |payload| && Chunk(payload, mss, i)[k] == payload[Offset(mss, i) + k]
    decreases i
  {
    if i > 0 {
      ChunkOctet(payload[mss..], mss, i - 1, k);
    }
  }

  /** Octet `k` of segment `i` is octet `i * mss + k` of the aggregate's payload. */
  lemma StreamOctet(seg: Octets, frame: Octets, mss: nat, split: Split, i: nat, k: nat)
    requires Aggregate(frame, mss, split) && i < SegmentCount(|frame| - split.Headers(), mss)
    requires SegmentOf(seg, frame, mss, split, i) && k < |seg| - split.Headers()
    ensures var h, q := split.Headers(), Offset(mss, i) + k;
            q < |frame| - h && seg[h + k] == frame[h + q]
  {
    ChunkPlaced(seg, frame, split.Headers(), mss, i, k);
  }

  lemma ChunkPlaced(seg: Octets, frame: Octets, h: nat, mss: nat, i: nat, k: nat)
    requires mss > 0 && h <= |seg| && h <= |frame| && i < SegmentCount(|frame| - h, mss)
    requires seg[h..] == Chunk(frame[h..], mss, i) && k < |seg| - h
    ensures var q := Offset(mss, i) + k; q < |frame| - h && seg[h + k] == frame[h + q]
  {
    ChunkOctet(frame[h..], mss, i, k);
    TailOctet(seg, h, k);
    TailOctet(frame, h, Offset(mss, i) + k);
  }

  lemma TailOctet(s: Octets, h: nat, k: nat)
    requires h <= |s| && k < |s[h..]|
    ensures h + k < |s| && s[h..][k] == s[h + k]
  {
  }

  /** Octet `q` of the payload falls in stretch `j`. */
  predicate Reaches(mss: nat, j: nat, q: nat) {
    Offset(mss, j) <= q < Offset(mss, j) + mss
  }

  /** Every octet of the payload lies in one segment: the one whose stretch of the payload it falls in. */
  lemma {:induction false} OctetPlaced(len: nat, mss: nat, q: nat) returns (i: nat, k: nat)
    requires mss > 0 && q < len
    ensures i < SegmentCount(len, mss) && k < mss && q == Offset(mss, i) + k
    ensures forall j: nat :: Reaches(mss, j, q) ==> j == i
    decreases len
  {
    if q < mss {
      i, k := 0, q;
      forall j: nat | Reaches(mss, j, q)
        ensures j == i
      {
        assert j > 0 ==> Offset(mss, j) >= mss;
      }
    } else {
      var i', k' := OctetPlaced(len - mss, mss, q - mss);
      i, k := i' + 1, k';
      forall j: nat | Reaches(mss, j, q)
        ensures j == i
      {
        if j > 0 {
          assert Reaches(mss, j - 1, q - mss);
        }
      }
    }
  }

  lemma ChunkCarries(chunk: Octets, payload: Octets, mss: nat, i: nat, k: nat)
    requires mss > 0 && i < SegmentCount(|payload|, mss) && chunk == Chunk(payload, mss, i)
    requires k < mss && Offset(mss, i) + k < |payload|
    ensures k < |chunk| && chunk[k] == payload[Offset(mss, i) + k]
  {
    ChunkReaches(payload, mss, i, k);
    ChunkOctet(payload, mss, i, k);
  }

  /** Octet `q` of the payload is carried by segment `i` at place `k`, and no other segment reaches it. */
  lemma EveryOctetCarried(out: seq<Octets>, frame: Octets, mss: nat, split: Split, q: nat) returns (i: nat, k: nat)
    requires Aggregate(frame, mss, split) && Segmentation(out, frame, mss, split) && q < |frame| - split.Headers()
    ensures i < |out| && q == Offset(mss, i) + k
    ensures split.Headers() + k < |out[i]| && out[i][split.Headers() + k] == frame[split.Headers() + q]
    ensures forall j: nat :: Reaches(mss, j, q) ==> j == i
  {
    var h := split.Headers();
    i, k := OctetPlaced(|frame| - h, mss, q);
    SegmentFields(out[i], frame, mss, split, i);
    ChunkCarries(out[i][h..], frame[h..], mss, i, k);
    TailOctet(out[i], h, k);
    TailOctet(frame, h, q);
  }

  lemma {:induction false} ChunkReaches(payload: Octets, mss: nat, i: nat, k: nat)
    requires mss > 0 && i < SegmentCount(|payload|, mss) && k < mss && Offset(mss, i) + k < |payload|
    ensures k < |Chunk(payload, mss, i)|
  {
    if i > 0 {
      ChunkReaches(payload[mss..], mss, i - 1, k);
    }
  }

  /** The sequence number of payload octet `k` of the packet whose TCP header is at `t`: the low 32 bits of the sum. */
  function SequenceOf(p: Octets, t: nat, k: nat): Octets
    requires t + 8 <= |p|
  {
    BE(4, Value(p[t + 4..t + 8]) + k)
  }

  /** An octet's sequence number in its segment is the aggregate's base plus the octet's place in the aggregate's
      payload, mod 2^32. */
  lemma StreamSequence(seg: Octets, frame: Octets, mss: nat, split: Split, i: nat, k: nat)
    requires Aggregate(frame, mss, split) && i < SegmentCount(|frame| - split.Headers(), mss)
    requires SegmentOf(seg, frame, mss, split, i)
    ensures SequenceOf(seg, split.ipLen, k) == SequenceOf(frame, split.ipLen, Offset(mss, i) + k)
  {
    SegmentFields(seg, frame, mss, split, i);
    NumberShift(seg, frame, mss, split, i, k);
  }

  lemma NumberShift(seg: Octets, frame: Octets, mss: nat, split: Split, i: nat, k: nat)
    requires Aggregate(frame, mss, split) && split.ipLen + 8 <= |seg|
    requires seg[split.ipLen + 4..split.ipLen + 8] == BE(4, NumberAt(frame, mss, split, i))
    ensures SequenceOf(seg, split.ipLen, k) == SequenceOf(frame, split.ipLen, Offset(mss, i) + k)
  {
    SequenceShift(seg, frame, split.ipLen, Offset(mss, i), k);
  }

  lemma SequenceShift(seg: Octets, frame: Octets, t: nat, offset: nat, k: nat)
    requires t + 8 <= |seg| && t + 8 <= |frame|
    requires seg[t + 4..t + 8] == BE(4, Value(frame[t + 4..t + 8]) + offset)
    ensures SequenceOf(seg, t, k) == SequenceOf(frame, t, offset + k)
  {
    Absorb(Value(frame[t + 4..t + 8]) + offset, k);
  }

  /** Adding to the low 32 bits of a number gives the low 32 bits of the sum. */
  lemma Absorb(n: nat, k: nat)
    ensures BE(4, Value(BE(4, n)) + k) == BE(4, n + k)
  {
    var a, b := Value(BE(4, n)) + k, n + k;
    assert Value(BE(4, a)) == Value(BE(4, b)) by {
      Varint.Powers();
      ValueOfBE(4, n);
      ValueOfBE(4, a);
      ValueOfBE(4, b);
      SumMod(n, k);
    }
    BEOfValue(BE(4, a));
    BEOfValue(BE(4, b));
  }

  lemma SumMod(x: nat, k: nat)
    ensures (x % 0x1_0000_0000 + k) % 0x1_0000_0000 == (x + k) % 0x1_0000_0000
  {
  }

  /** Bit `b` of the flags of a segment: bits 0 and 3, FIN and PSH, are for the last, bit 7, CWR, for the first. */
  predicate FlagOf(f: Byte, first: bool, last: bool, b: nat)
    requires b < 8
  {
    Bits(f, 8)[b] && (b == 0 || b == 3 ==> last) && (b == 7 ==> first)
  }

  lemma FlagBits(f: Byte, first: bool, last: bool, b: nat)
    requires b < 8
    ensures Bits(SegmentFlags(f, first, last), 8)[b] <==> FlagOf(f, first, last, b)
  {
  }

  lemma FlagsAtBits(frame: Octets, mss: nat, split: Split, i: nat, b: nat)
    requires Aggregate(frame, mss, split) && b < 8
    ensures Bits(FlagsAt(frame, mss, split, i), 8)[b] <==>
            FlagOf(frame[split.ipLen + 13], i == 0, i == SegmentCount(|frame| - split.Headers(), mss) - 1, b)
  {
    FlagBits(frame[split.ipLen + 13], i == 0, i == SegmentCount(|frame| - split.Headers(), mss) - 1, b);
  }

  /** FIN and PSH ride the last segment only, CWR the first only, every other flag rides them all; or-ing the flags of
      all segments gives the aggregate's flags back. */
  lemma FlagsSplit(out: seq<Octets>, frame: Octets, mss: nat, split: Split, b: nat)
    requires Aggregate(frame, mss, split) && Segmentation(out, frame, mss, split) && b < 8
    ensures forall i :: 0 <= i < |out| ==>
              |out[i]| > split.ipLen + 13
              && (Bits(out[i][split.ipLen + 13], 8)[b] <==> FlagOf(frame[split.ipLen + 13], i == 0, i == |out| - 1, b))
    ensures Bits(frame[split.ipLen + 13], 8)[b] <==> exists i :: 0 <= i < |out| && Bits(out[i][split.ipLen + 13], 8)[b]
  {
    forall i | 0 <= i < |out|
      ensures |out[i]| > split.ipLen + 13
      ensures Bits(out[i][split.ipLen + 13], 8)[b] <==> FlagOf(frame[split.ipLen + 13], i == 0, i == |out| - 1, b)
    {
      SegmentFields(out[i], frame, mss, split, i);
      FlagsAtBits(frame, mss, split, i, b);
    }
    var k := if b == CWR then 0 else |out| - 1;
    assert Bits(frame[split.ipLen + 13], 8)[b] ==> Bits(out[k][split.ipLen + 13], 8)[b];
  }

  /** The addresses and protocol written in a header without extension headers. */
  function Addressing(p: Octets): PacketInfo
    requires |p| >= 40
  {
    if IsV4(p) then PacketInfo(4, FromBytes(p[12..16]), FromBytes(p[16..20]), p[9])
    else PacketInfo(6, FromBytes(p[8..24]), FromBytes(p[24..40]), p[6])
  }

  /** Small enough for its length field, and without IPv6 extension headers. */
  predicate Plain(p: Octets) {
    p != [] && |p| <= 0xffff && (IsV6(p) ==> |p| >= 40 && !IsExtension(p[6]))
  }

  lemma UnrewrittenAddressed(frame: Octets, mss: nat, split: Split, i: nat)
    requires Aggregate(frame, mss, split) && i < SegmentCount(|frame| - split.Headers(), mss) && Plain(frame)
    ensures var whole := Unrewritten(frame, mss, split, i);
            |frame| >= 40 && Simple(whole, split) && Addressing(whole) == Addressing(frame)
  {
    SameAddressing(Unrewritten(frame, mss, split, i), frame, split.Headers());
  }

  predicate Simple(whole: Octets, split: Split) {
    |whole| >= 40 && Plain(whole) && (!IsV4(whole) ==> IsV6(whole) && split.ipLen == 40)
  }

  /** Within 64 KiB every segment has a length field equal to its size and parses with the aggregate's addresses and
      protocol. An IPv6 aggregate carries no extension headers. */
  lemma SegmentParses(seg: Octets, frame: Octets, mss: nat, split: Split, i: nat)
    requires Aggregate(frame, mss, split) && i < SegmentCount(|frame| - split.Headers(), mss)
    requires SegmentOf(seg, frame, mss, split, i)
    requires Plain(frame)
    ensures |frame| >= 40 && Parse(seg) == Ok(Addressing(frame))
  {
    UnrewrittenAddressed(frame, mss, split, i);
    RebuiltParses(seg, Unrewritten(frame, mss, split, i), split, FieldsAt(frame, mss, split, i));
  }

  lemma SameAddressing(a: Octets, b: Octets, h: nat)
    requires 40 <= h <= |a| && h <= |b| && a[..h] == b[..h]
    ensures Addressing(a) == Addressing(b) && a[6] == b[6]
  {
    assert forall k :: 0 <= k < h ==> a[k] == a[..h][k] == b[..h][k] == b[k];
    assert a[12..16] == b[12..16] && a[16..20] == b[16..20];
    assert a[8..24] == b[8..24] && a[24..40] == b[24..40];
  }

  lemma RebuiltParses(r: Octets, whole: Octets, split: Split, f: Fields)
    requires Framed(whole, split) && Simple(whole, split) && Rebuilt(r, whole, split, f)
    ensures Parse(r) == Ok(Addressing(whole))
  {
    CarriesParse(r, whole, split.ipLen, f.id, f.number, f.flags);
  }

  lemma CarriesParse(r: Octets, seg: Octets, t: nat, id: nat, number: nat, flags: Byte)
    requires |r| == |seg| && 20 <= t && t + 20 <= |seg| <= 0xffff && Carries(r, seg, t, id, number, flags)
    requires IsV4(seg) ==> t == HeaderLen(seg)
    requires !IsV4(seg) ==> IsV6(seg) && t == 40 && !IsExtension(seg[6])
    ensures Parse(r) == Ok(Addressing(seg))
  {
    if IsV4(seg) {
      WordOf(|seg|);
      assert r[2] == r[2..4][0] && r[3] == r[2..4][1];
      assert r[12..16] == seg[12..16] && r[16..20] == seg[16..20];
    } else {
      WordOf(|seg| - 40);
      assert r[4] == r[4..6][0] && r[5] == r[4..6][1];
      assert r[8..24] == seg[8..24] && r[24..40] == seg[24..40];
    }
  }
}
