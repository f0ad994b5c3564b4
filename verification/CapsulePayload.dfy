/** Payload codecs of the CONNECT-IP capsules (sections 4.7.1 to 4.7.3 of RFC 9484): src/capsule/address_assign.rs,
    src/capsule/address_request.rs and src/capsule/route_advertisement.rs. */
module CapsulePayload {
  import opened Octets
  import opened Address
  import opened Sorting
  import Varint

  /** `decode_ip_address`: the octets the version announces. */
  function DecodeIp(buf: Octets, version: Byte): (r: Decoded<(IpAddr, Octets)>)
    ensures r.Ok? ==> r.value.0.Version() == version && |r.value.1| < |buf|
    ensures r == Err(InvalidIpVersion(version)) <==> version !in {4, 6}
    ensures r.Err? && version in {4, 6} <==> version in {4, 6} && |buf| < (if version == 4 then 4 else 16)
    ensures r.Err? && version in {4, 6} ==> r.error == BufferTooShort(if version == 4 then 4 else 16, |buf|)
  {
    if version != 4 && version != 6 then Err(InvalidIpVersion(version))
    else
      var n := if version == 4 then 4 else 16;
      if |buf| < n then Err(BufferTooShort(n, |buf|)) else Ok((FromBytes(buf[..n]), buf[n..]))
  }

  lemma DecodeIpBytes(ip: IpAddr, rest: Octets)
    ensures DecodeIp(ip.Bytes() + rest, ip.Version()) == Ok((ip, rest))
  {
    var n := ip.Width();
    assert (ip.Bytes() + rest)[..n] == ip.Bytes() && (ip.Bytes() + rest)[n..] == rest;
    BytesRoundTrip(ip);
  }

  function MaxPrefix(version: Byte): Byte {
    if version == 4 then 32 else 128
  }

  /** One address entry; an ADDRESS_REQUEST (`nonzero`) refuses request id 0 before looking further. */
  function DecodeEntry(buf: Octets, nonzero: bool): (r: Decoded<(AddressEntry, Octets)>)
    ensures r.Ok? ==> |r.value.1| < |buf| && EntryWellFormed(r.value.0, nonzero)
  {
    var (id, afterId) :- Varint.Read(buf);
    if nonzero && id == 0 then Err(InvalidVarInt)
    else if afterId == [] then Err(Underflow)
    else
      var version := afterId[0];
      var (ip, afterIp) :- DecodeIp(afterId[1..], version);
      if afterIp == [] then Err(Underflow)
      else if afterIp[0] > MaxPrefix(version) then Err(InvalidPrefixLength(version, afterIp[0]))
      else Ok((AddressEntry(id, version, ip, afterIp[0]), afterIp[1..]))
  }

  predicate EntryWellFormed(e: AddressEntry, nonzero: bool) {
    && e.requestId <= Varint.VARINT_MAX && (nonzero ==> e.requestId != 0)
    && e.ipVersion == e.ipAddress.Version() && e.prefixLength <= MaxPrefix(e.ipVersion)
  }

  function EncodeEntry(e: AddressEntry): (s: Octets)
    requires e.requestId <= Varint.VARINT_MAX
  {
    Varint.Encode(e.requestId) + ([e.ipVersion] + (e.ipAddress.Bytes() + [e.prefixLength]))
  }

  /** `assigned_address_len`: what the envelope length is summed from. */
  function EntryLen(e: AddressEntry): nat
    requires e.requestId <= Varint.VARINT_MAX
  {
    Varint.Length(e.requestId).value + 1 + (if e.ipVersion == 4 then 4 else 16) + 1
  }

  lemma EntryRoundTrip(e: AddressEntry, nonzero: bool, rest: Octets)
    requires EntryWellFormed(e, nonzero)
    ensures DecodeEntry(EncodeEntry(e) + rest, nonzero) == Ok((e, rest))
    ensures |EncodeEntry(e)| == EntryLen(e)
  {
    var afterIp := [e.prefixLength] + rest;
    var afterVersion := e.ipAddress.Bytes() + afterIp;
    var afterId := [e.ipVersion] + afterVersion;
    assert EncodeEntry(e) + rest == Varint.Encode(e.requestId) + afterId;
    Varint.ReadEncode(e.requestId, afterId);
    assert afterId[1..] == afterVersion;
    DecodeIpBytes(e.ipAddress, afterIp);
    assert afterIp[1..] == rest;
  }

  /** An entry on the wire: request id as a varint, one octet of version, the address, one octet of prefix length. Nothing else
      decodes to it, and whatever follows is left. */
  lemma EntryExactly(buf: Octets, nonzero: bool, e: AddressEntry, rest: Octets)
    ensures DecodeEntry(buf, nonzero) == Ok((e, rest)) <==>
            && EntryWellFormed(e, nonzero) && Varint.Read(buf).Ok? && Varint.Read(buf).value.0 == e.requestId
            && Varint.Read(buf).value.1 == [e.ipVersion] + e.ipAddress.Bytes() + [e.prefixLength] + rest
  {
    if Varint.Read(buf).Ok? {
      var after := Varint.Read(buf).value.1;
      if DecodeEntry(buf, nonzero) == Ok((e, rest)) {
        DecodeIpSplits(after[1..], after[0]);
        var tail := DecodeIp(after[1..], after[0]).value.1;
        assert tail == [tail[0]] + tail[1..] && after == [after[0]] + after[1..];
        Regroup(e.ipVersion, e.ipAddress.Bytes(), e.prefixLength, rest);
      }
      if EntryWellFormed(e, nonzero) && Varint.Read(buf).value.0 == e.requestId
         && after == [e.ipVersion] + e.ipAddress.Bytes() + [e.prefixLength] + rest {
        Regroup(e.ipVersion, e.ipAddress.Bytes(), e.prefixLength, rest);
        DecodeIpBytes(e.ipAddress, [e.prefixLength] + rest);
        assert ([e.prefixLength] + rest)[1..] == rest;
      }
    }
  }

  lemma Regroup(version: Byte, ip: Octets, last: Byte, rest: Octets)
    ensures [version] + (ip + ([last] + rest)) == [version] + ip + [last] + rest
    ensures ([version] + ip + [last] + rest)[1..] == ip + ([last] + rest)
  {
    assert [version] + (ip + ([last] + rest)) == [version] + ip + [last] + rest;
  }

  /** Why an entry is refused: a zero id where one is asked for, an unknown version, an address or prefix length that is not
      there, a prefix longer than the family has bits. */
  lemma EntryErrors(buf: Octets, nonzero: bool)
    requires Varint.Read(buf).Ok?
    ensures var (id, after) := Varint.Read(buf).value; var r := DecodeEntry(buf, nonzero);
            && (nonzero && id == 0 ==> r == Err(InvalidVarInt))
            && (!(nonzero && id == 0) && after == [] ==> r == Err(Underflow))
            && (!(nonzero && id == 0) && after != [] && after[0] !in {4, 6} ==> r == Err(InvalidIpVersion(after[0])))
            && (!(nonzero && id == 0) && after != [] && after[0] in {4, 6} ==>
                  var w := if after[0] == 4 then 4 else 16;
                  && (|after| < 1 + w ==> r == Err(BufferTooShort(w, |after| - 1)))
                  && (|after| == 1 + w ==> r == Err(Underflow))
                  && (|after| > 1 + w && after[1 + w] > 8 * w ==> r == Err(InvalidPrefixLength(after[0], after[1 + w])))
                  && (|after| > 1 + w && after[1 + w] <= 8 * w ==> r.Ok?))
  {
  }

  function DecodeEntries(buf: Octets, nonzero: bool): (r: Decoded<seq<AddressEntry>>)
    decreases |buf|
  {
    if buf == [] then Ok([])
    else
      var (e, rest) :- DecodeEntry(buf, nonzero);
      var es :- DecodeEntries(rest, nonzero);
      Ok([e] + es)
  }

  ghost predicate EntriesWellFormed(es: seq<AddressEntry>, nonzero: bool) {
    forall i :: 0 <= i < |es| ==> EntryWellFormed(es[i], nonzero)
  }

  function EncodeEntries(es: seq<AddressEntry>): (s: Octets)
    requires forall i :: 0 <= i < |es| ==> es[i].requestId <= Varint.VARINT_MAX
  {
    if es == [] then [] else EncodeEntry(es[0]) + EncodeEntries(es[1..])
  }

  function EntriesLen(es: seq<AddressEntry>): nat
    requires forall i :: 0 <= i < |es| ==> es[i].requestId <= Varint.VARINT_MAX
  {
    if es == [] then 0 else EntryLen(es[0]) + EntriesLen(es[1..])
  }

  lemma {:induction false} EntriesRoundTrip(es: seq<AddressEntry>, nonzero: bool)
    requires EntriesWellFormed(es, nonzero)
    ensures DecodeEntries(EncodeEntries(es), nonzero) == Ok(es)
    ensures |EncodeEntries(es)| == EntriesLen(es)
  {
    if es != [] {
      EntryRoundTrip(es[0], nonzero, EncodeEntries(es[1..]));
      EntriesRoundTrip(es[1..], nonzero);
      DecodeFirst(EncodeEntries(es), EncodeEntries(es[1..]), es, nonzero);
    }
  }

  lemma DecodeFirst(buf: Octets, rest: Octets, es: seq<AddressEntry>, nonzero: bool)
    requires buf != [] && es != []
    requires DecodeEntry(buf, nonzero) == Ok((es[0], rest)) && DecodeEntries(rest, nonzero) == Ok(es[1..])
    ensures DecodeEntries(buf, nonzero) == Ok(es)
  {
    assert es == [es[0]] + es[1..];
  }

  /** `AddressRequest::decode` additionally refuses an empty list. */
  function DecodeRequest(buf: Octets): Decoded<seq<AddressEntry>> {
    var es :- DecodeEntries(buf, true);
    if es == [] then Err(Underflow) else Ok(es)
  }

  /** The decode loop of ADDRESS_ASSIGN and ADDRESS_REQUEST. */
  method DecodeEntryList(payload: Octets, nonzero: bool) returns (r: Decoded<seq<AddressEntry>>)
    ensures r == DecodeEntries(payload, nonzero)
  {
    var buf, es := payload, [];
    StartsEmpty(DecodeEntries(payload, nonzero));
    while buf != []
      invariant DecodeEntries(payload, nonzero) == Prepend(es, DecodeEntries(buf, nonzero))
      decreases |buf|
    {
      var one := DecodeEntry(buf, nonzero);
      if one.Err? {
        return Err(one.error);
      }
      PrependOne(es, one.value.0, DecodeEntries(one.value.1, nonzero));
      es := es + [one.value.0];
      buf := one.value.1;
    }
    assert es + [] == es;
    return Ok(es);
  }

  function Prepend<T>(done: seq<T>, rest: Decoded<seq<T>>): Decoded<seq<T>> {
    if rest.Err? then rest else Ok(done + rest.value)
  }

  lemma PrependOne<T>(done: seq<T>, x: T, rest: Decoded<seq<T>>)
    ensures Prepend(done + [x], rest) == Prepend(done, Prepend([x], rest))
  {
    if rest.Ok? {
      assert done + ([x] + rest.value) == done + [x] + rest.value;
    }
  }

  lemma StartsEmpty<T>(rest: Decoded<seq<T>>)
    ensures Prepend([], rest) == rest
  {
    if rest.Ok? {
      assert [] + rest.value == rest.value;
    }
  }

  /** `cmp_ip_addr` on two addresses of one family: octet by octet. */
  predicate OctetsLess(a: IpAddr, b: IpAddr)
    requires a.V4? == b.V4?
  {
    LexLess(a.Bytes(), b.Bytes())
  }

  lemma OctetOrderIsNumeric(a: IpAddr, b: IpAddr)
    requires a.V4? == b.V4?
    ensures OctetsLess(a, b) <==> a.Key() < b.Key()
  {
    LexIsNumeric(a.Bytes(), b.Bytes());
    Varint.Powers();
    ValueOfBE(a.Width(), a.Key());
    ValueOfBE(b.Width(), b.Key());
  }

  /** `IpAddr`'s own order: IPv4 before IPv6, then by number. */
  predicate IpLess(a: IpAddr, b: IpAddr) {
    (a.V4? && b.V6?) || (a.V4? == b.V4? && a.Key() < b.Key())
  }

  /** The order section 4.7.3 of RFC 9484 asks for: version, protocol, start. */
  predicate RfcLess(a: IpAddressRange, b: IpAddressRange) {
    || a.ipVersion < b.ipVersion
    || (a.ipVersion == b.ipVersion &&
        (a.ipProtocol < b.ipProtocol || (a.ipProtocol == b.ipProtocol && IpLess(a.startIp, b.startIp))))
  }

  predicate RfcLeq(a: IpAddressRange, b: IpAddressRange) {
    !RfcLess(b, a)
  }

  /** The order `derive(Ord)` gives the struct: version, start, end, protocol. */
  predicate DerivedLess(a: IpAddressRange, b: IpAddressRange) {
    || a.ipVersion < b.ipVersion
    || (a.ipVersion == b.ipVersion &&
        (|| IpLess(a.startIp, b.startIp)
         || (a.startIp == b.startIp &&
             (IpLess(a.endIp, b.endIp) || (a.endIp == b.endIp && a.ipProtocol < b.ipProtocol)))))
  }

  predicate DerivedLeq(a: IpAddressRange, b: IpAddressRange) {
    !DerivedLess(b, a)
  }

  lemma OrdersTotal()
    ensures TotalOrder(RfcLeq) && TotalOrder(DerivedLeq)
  {
  }

  function DecodeRange(buf: Octets): (r: Decoded<(IpAddressRange, Octets)>)
    ensures r.Ok? ==> |r.value.1| < |buf| && r.value.0.WellFormed()
  {
    if buf == [] then Err(Underflow)
    else
      var version := buf[0];
      var (start, afterStart) :- DecodeIp(buf[1..], version);
      var (end, afterEnd) :- DecodeIp(afterStart, version);
      OctetOrderIsNumeric(end, start);
      if OctetsLess(end, start) then Err(InvalidVarInt)
      else if afterEnd == [] then Err(Underflow)
      else Ok((IpAddressRange(version, start, end, afterEnd[0]), afterEnd[1..]))
  }

  function EncodeRange(r: IpAddressRange): Octets {
    [r.ipVersion] + (r.startIp.Bytes() + (r.endIp.Bytes() + [r.ipProtocol]))
  }

  function RangeLen(r: IpAddressRange): nat {
    var n := if r.ipVersion == 4 then 4 else 16;
    1 + n + n + 1
  }

  lemma RangeRoundTrip(r: IpAddressRange, rest: Octets)
    requires r.WellFormed()
    ensures DecodeRange(EncodeRange(r) + rest) == Ok((r, rest))
    ensures |EncodeRange(r)| == RangeLen(r)
  {
    var afterEnd := [r.ipProtocol] + rest;
    var afterStart := r.endIp.Bytes() + afterEnd;
    assert (EncodeRange(r) + rest)[1..] == r.startIp.Bytes() + afterStart;
    DecodeIpBytes(r.startIp, afterStart);
    DecodeIpBytes(r.endIp, afterEnd);
    OctetOrderIsNumeric(r.endIp, r.startIp);
    assert afterEnd[1..] == rest;
  }

  /** A range on the wire: one octet of version, both addresses, one octet of protocol. */
  lemma RangeLayout(r: IpAddressRange)
    requires r.WellFormed()
    ensures var s := EncodeRange(r); var w := if r.ipVersion == 4 then 4 else 16;
            && |s| == 2 * w + 2 && s[0] == r.ipVersion && s[2 * w + 1] == r.ipProtocol
            && FromBytes(s[1..w + 1]) == r.startIp && FromBytes(s[w + 1..2 * w + 1]) == r.endIp
  {
    var s, w := EncodeRange(r), r.startIp.Width();
    assert s[1..w + 1] == r.startIp.Bytes() && s[w + 1..2 * w + 1] == r.endIp.Bytes();
    BytesRoundTrip(r.startIp);
    BytesRoundTrip(r.endIp);
  }

  /** Why a range is refused. */
  lemma RangeErrors(buf: Octets)
    requires buf != []
    ensures var r := DecodeRange(buf); var w := if buf[0] == 4 then 4 else 16;
            && (buf[0] !in {4, 6} ==> r == Err(InvalidIpVersion(buf[0])))
            && (buf[0] in {4, 6} && |buf| < 1 + w ==> r == Err(BufferTooShort(w, |buf| - 1)))
            && (buf[0] in {4, 6} && 1 + w <= |buf| < 1 + 2 * w ==> r == Err(BufferTooShort(w, |buf| - 1 - w)))
            && (buf[0] in {4, 6} && 1 + 2 * w <= |buf| ==>
                  var start, end := FromBytes(buf[1..w + 1]), FromBytes(buf[w + 1..2 * w + 1]);
                  && (end.Key() < start.Key() ==> r == Err(InvalidVarInt))
                  && (end.Key() >= start.Key() && |buf| == 1 + 2 * w ==> r == Err(Underflow))
                  && (end.Key() >= start.Key() && |buf| > 1 + 2 * w ==> r.Ok?))
  {
    var w := if buf[0] == 4 then 4 else 16;
    if buf[0] in {4, 6} && 1 + 2 * w <= |buf| {
      Slices(buf, w);
      OctetOrderIsNumeric(FromBytes(buf[w + 1..2 * w + 1]), FromBytes(buf[1..w + 1]));
    }
  }

  lemma Slices(buf: Octets, w: nat)
    requires 1 + 2 * w <= |buf|
    ensures buf[1..][..w] == buf[1..w + 1] && buf[1..][w..][..w] == buf[w + 1..2 * w + 1]
    ensures buf[1..][w..][w..] == buf[2 * w + 1..]
  {
  }

  lemma DecodeIpSplits(buf: Octets, version: Byte)
    requires DecodeIp(buf, version).Ok?
    ensures var (ip, rest) := DecodeIp(buf, version).value; buf == ip.Bytes() + rest
  {
    var n := if version == 4 then 4 else 16;
    FromBytesRoundTrip(buf[..n]);
    assert buf == buf[..n] + buf[n..];
  }

  /** Nothing but the encoding of a range decodes to it. */
  lemma RangeCanonical(buf: Octets)
    requires DecodeRange(buf).Ok?
    ensures var (r, rest) := DecodeRange(buf).value; buf == EncodeRange(r) + rest
  {
    var version := buf[0];
    DecodeIpSplits(buf[1..], version);
    var (start, afterStart) := DecodeIp(buf[1..], version).value;
    DecodeIpSplits(afterStart, version);
    var (end, afterEnd) := DecodeIp(afterStart, version).value;
    RegroupRange(version, start.Bytes(), end.Bytes(), afterEnd[0], afterEnd[1..]);
    assert buf == [version] + buf[1..] && afterEnd == [afterEnd[0]] + afterEnd[1..];
  }

  lemma RegroupRange(version: Byte, start: Octets, end: Octets, proto: Byte, rest: Octets)
    ensures [version] + (start + (end + ([proto] + rest))) == [version] + (start + (end + [proto])) + rest
  {
  }

  function DecodeRanges(buf: Octets): (r: Decoded<seq<IpAddressRange>>)
    decreases |buf|
  {
    if buf == [] then Ok([])
    else
      var (one, rest) :- DecodeRange(buf);
      var more :- DecodeRanges(rest);
      Ok([one] + more)
  }

  /** The pairwise check after the decode loop. */
  predicate Accepts(rs: seq<IpAddressRange>) {
    forall i :: 0 <= i < |rs| - 1 ==> DerivedLess(rs[i], rs[i + 1]) || RfcLess(rs[i], rs[i + 1])
  }

  /** `RouteAdvertisement::decode`. */
  function DecodeRoutes(buf: Octets): (r: Decoded<seq<IpAddressRange>>)
    ensures r.Ok? ==> Accepts(r.value)
  {
    var rs :- DecodeRanges(buf);
    if Accepts(rs) then Ok(rs) else Err(InvalidVarInt)
  }

  function EncodeRanges(rs: seq<IpAddressRange>): (s: Octets) {
    if rs == [] then [] else EncodeRange(rs[0]) + EncodeRanges(rs[1..])
  }

  function RangesLen(rs: seq<IpAddressRange>): nat {
    if rs == [] then 0 else RangeLen(rs[0]) + RangesLen(rs[1..])
  }

  /** `RouteAdvertisement::encode_payload`: sort by the RFC's key, then encode. */
  function EncodeRoutes(rs: seq<IpAddressRange>): Octets {
    EncodeRanges(Sort(rs, RfcLeq))
  }

  ghost predicate RangesWellFormed(rs: seq<IpAddressRange>) {
    forall r :: r in rs ==> r.WellFormed()
  }

  lemma {:induction false} RangesRoundTrip(rs: seq<IpAddressRange>)
    requires RangesWellFormed(rs)
    ensures DecodeRanges(EncodeRanges(rs)) == Ok(rs)
    ensures |EncodeRanges(rs)| == RangesLen(rs)
  {
    if rs != [] {
      RangeRoundTrip(rs[0], EncodeRanges(rs[1..]));
      RangesRoundTrip(rs[1..]);
      assert rs == [rs[0]] + rs[1..];
    }
  }

  /** A payload decodes to ranges exactly when they are well formed and it is their encoding. */
  lemma {:induction false} RangesExactly(buf: Octets, rs: seq<IpAddressRange>)
    ensures DecodeRanges(buf) == Ok(rs) <==> RangesWellFormed(rs) && buf == EncodeRanges(rs)
    decreases |buf|
  {
    if RangesWellFormed(rs) && buf == EncodeRanges(rs) {
      RangesRoundTrip(rs);
    }
    if buf != [] && DecodeRanges(buf) == Ok(rs) {
      RangeCanonical(buf);
      RangesExactly(DecodeRange(buf).value.1, rs[1..]);
      assert rs == [DecodeRange(buf).value.0] + rs[1..];
    }
  }

  predicate SameKey(a: IpAddressRange, b: IpAddressRange) {
    a.ipVersion == b.ipVersion && a.ipProtocol == b.ipProtocol && a.startIp == b.startIp
  }

  ghost predicate DistinctKeys(rs: seq<IpAddressRange>) {
    forall i, j :: 0 <= i < j < |rs| ==> !SameKey(rs[i], rs[j])
  }

  lemma Twice(s: seq<IpAddressRange>, i: nat, j: nat)
    requires i < j < |s| && s[i] == s[j]
    ensures multiset(s)[s[i]] >= 2
  {
    assert s == s[..i] + [s[i]] + s[i + 1..j] + [s[j]] + s[j + 1..];
    assert multiset(s) == multiset(s[..i]) + multiset{s[i]} + multiset(s[i + 1..j]) + multiset{s[j]} + multiset(s[j + 1..]);
  }

  /** Where keys are distinct, a key picks out one element, held once. */
  lemma KeyPicksOne(s: seq<IpAddressRange>, x: IpAddressRange, y: IpAddressRange)
    requires DistinctKeys(s) && x in s && y in s && SameKey(x, y)
    ensures x == y && multiset(s)[x] == 1
  {
    var i :| 0 <= i < |s| && s[i] == x;
    assert s == s[..i] + [s[i]] + s[i + 1..];
    assert multiset(s) == multiset(s[..i]) + multiset{s[i]} + multiset(s[i + 1..]);
    assert forall k :: 0 <= k < i ==> !SameKey(s[k], s[i]);
    assert forall k :: i < k < |s| ==> !SameKey(s[i], s[k]);
    assert s[i] !in multiset(s[..i]) && s[i] !in multiset(s[i + 1..]);
  }

  /** Distinct keys survive any reordering. */
  lemma DistinctKeysPermute(rs: seq<IpAddressRange>, qs: seq<IpAddressRange>)
    requires DistinctKeys(rs) && multiset(rs) == multiset(qs)
    ensures DistinctKeys(qs)
  {
    forall i, j | 0 <= i < j < |qs|
      ensures !SameKey(qs[i], qs[j])
    {
      assert qs[i] in multiset(rs) && qs[j] in multiset(rs);
      if SameKey(qs[i], qs[j]) {
        KeyPicksOne(rs, qs[i], qs[j]);
        Twice(qs, i, j);
        assert false;
      }
    }
  }

  lemma StrictlyOrdered(sorted: seq<IpAddressRange>)
    requires RangesWellFormed(sorted) && DistinctKeys(sorted) && Sorted(sorted, RfcLeq)
    ensures forall i, j :: 0 <= i < j < |sorted| ==> RfcLess(sorted[i], sorted[j])
  {
    forall i, j | 0 <= i < j < |sorted|
      ensures RfcLess(sorted[i], sorted[j])
    {
      assert RfcLeq(sorted[i], sorted[j]) && !SameKey(sorted[i], sorted[j]);
      assert sorted[i].WellFormed() && sorted[j].WellFormed();
    }
  }

  /** For every set of well-formed ranges with distinct (version, protocol, start) keys, decoding the encoded
      ROUTE_ADVERTISEMENT succeeds and returns exactly those ranges in strict RFC order. */
  lemma RoutesRoundTrip(rs: seq<IpAddressRange>)
    requires RangesWellFormed(rs) && DistinctKeys(rs)
    ensures var sorted := Sort(rs, RfcLeq);
            && DecodeRoutes(EncodeRoutes(rs)) == Ok(sorted)
            && multiset(sorted) == multiset(rs)
            && forall i, j :: 0 <= i < j < |sorted| ==> RfcLess(sorted[i], sorted[j])
    ensures |EncodeRoutes(rs)| == RangesLen(Sort(rs, RfcLeq))
  {
    var sorted := Sort(rs, RfcLeq);
    SortMembers(rs, RfcLeq);
    RangesRoundTrip(sorted);
    OrdersTotal();
    SortSorted(rs, RfcLeq);
    DistinctKeysPermute(rs, sorted);
    StrictlyOrdered(sorted);
  }

  /** The decoder does not reject every list out of RFC order. */
  lemma UnorderedAccepted() returns (rs: seq<IpAddressRange>)
    ensures RangesWellFormed(rs) && |rs| == 2 && RfcLess(rs[1], rs[0])
    ensures DecodeRoutes(EncodeRanges(rs)) == Ok(rs)
  {
    rs := [IpAddressRange(4, V4(10), V4(10), 17), IpAddressRange(4, V4(20), V4(20), 6)];
    RangesRoundTrip(rs);
  }

  /** What the decoder does accept: the encoding of well-formed ranges, where within a version each range raises the
      start or the protocol over its predecessor, or keeps the start and raises the end. */
  lemma AcceptedExactly(buf: Octets, rs: seq<IpAddressRange>)
    ensures DecodeRoutes(buf) == Ok(rs) <==>
            && RangesWellFormed(rs) && buf == EncodeRanges(rs)
            && forall i :: 0 <= i < |rs| - 1 ==> Raises(rs[i], rs[i + 1])
  {
    RangesExactly(buf, rs);
    if RangesWellFormed(rs) {
      forall i | 0 <= i < |rs| - 1
        ensures Raises(rs[i], rs[i + 1]) <==> DerivedLess(rs[i], rs[i + 1]) || RfcLess(rs[i], rs[i + 1])
      {
        RaisesEither(rs[i], rs[i + 1]);
      }
    }
  }

  lemma RaisesEither(a: IpAddressRange, b: IpAddressRange)
    requires a.WellFormed() && b.WellFormed()
    ensures Raises(a, b) <==> DerivedLess(a, b) || RfcLess(a, b)
  {
  }

  predicate Raises(a: IpAddressRange, b: IpAddressRange) {
    || a.ipVersion < b.ipVersion
    || (a.ipVersion == b.ipVersion &&
        (|| a.startIp.Key() < b.startIp.Key()
         || a.ipProtocol < b.ipProtocol
         || (a.startIp.Key() == b.startIp.Key() && a.endIp.Key() < b.endIp.Key())))
  }

  /** The window check of `RouteAdvertisement::decode`. */
  method CheckOrder(rs: seq<IpAddressRange>) returns (ok: bool)
    ensures ok == Accepts(rs)
  {
    var i := 0;
    while i + 1 < |rs|
      invariant forall k :: 0 <= k < i && k < |rs| - 1 ==> DerivedLess(rs[k], rs[k + 1]) || RfcLess(rs[k], rs[k + 1])
    {
      if !DerivedLess(rs[i], rs[i + 1]) && !RfcLess(rs[i], rs[i + 1]) {
        return false;
      }
      i := i + 1;
    }
    return true;
  }

  /** `RouteAdvertisement::decode`: the decode loop, then the window check. */
  method DecodeRouteList(payload: Octets) returns (r: Decoded<seq<IpAddressRange>>)
    ensures r == DecodeRoutes(payload)
  {
    var buf, rs := payload, [];
    StartsEmpty(DecodeRanges(payload));
    while buf != []
      invariant DecodeRanges(payload) == Prepend(rs, DecodeRanges(buf))
      decreases |buf|
    {
      var one := DecodeRange(buf);
      if one.Err? {
        return Err(one.error);
      }
      PrependOne(rs, one.value.0, DecodeRanges(one.value.1));
      rs := rs + [one.value.0];
      buf := one.value.1;
    }
    assert rs + [] == rs;
    var ok := CheckOrder(rs);
    return if ok then Ok(rs) else Err(InvalidVarInt);
  }
}
