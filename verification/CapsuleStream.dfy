/** The capsule envelope and the stream buffer that cuts capsules out of arbitrary read chunks: src/capsule/mod.rs. */
module CapsuleStream {
  import opened Octets
  import opened Address
  import opened CapsulePayload
  import Sorting
  import Varint

  const CAPSULE_ADDRESS_ASSIGN := 1
  const CAPSULE_ADDRESS_REQUEST := 2
  const CAPSULE_ROUTE_ADVERTISEMENT := 3

  datatype Capsule =
    | AddressAssign(assignedAddresses: seq<AssignedAddress>)
    | AddressRequest(requestedAddresses: seq<RequestedAddress>)
    | RouteAdvertisement(ipAddressRanges: seq<IpAddressRange>)
    | Unknown(typeId: U64, data: Octets)

  function DecodePayload(typeId: U64, payload: Octets): Decoded<Capsule> {
    if typeId == CAPSULE_ADDRESS_ASSIGN then
      var es :- DecodeEntries(payload, false); Ok(AddressAssign(es))
    else if typeId == CAPSULE_ADDRESS_REQUEST then
      var es :- DecodeRequest(payload); Ok(AddressRequest(es))
    else if typeId == CAPSULE_ROUTE_ADVERTISEMENT then
      var rs :- DecodeRoutes(payload); Ok(RouteAdvertisement(rs))
    else Ok(Unknown(typeId, payload))
  }

  /** An envelope: type, length and as many payload octets, or not all of it yet. */
  datatype Envelope = Partial | Whole(typeId: U64, payload: Octets, rest: Octets)

  function Cut(buf: Octets): (e: Envelope)
    ensures e.Whole? ==> |e.rest| < |buf|
  {
    var first := Varint.Read(buf);
    if first.Err? then Partial
    else
      var second := Varint.Read(first.value.1);
      if second.Err? || |second.value.1| < second.value.0 then Partial
      else Whole(first.value.0, second.value.1[..second.value.0], second.value.1[second.value.0..])
  }

  /** A buffer holds a whole envelope exactly when it reads as a type, then a length, then that many octets. */
  lemma CutExactly(buf: Octets, t: U64, payload: Octets, rest: Octets)
    ensures Cut(buf) == Whole(t, payload, rest) <==>
            && Varint.Read(buf).Ok? && Varint.Read(buf).value.0 == t
            && var view := Varint.Read(buf).value.1;
               Varint.Read(view).Ok? && Varint.Read(view).value == (|payload|, payload + rest)
  {
    if Cut(buf).Whole? {
      var body := Varint.Read(Varint.Read(buf).value.1).value;
      assert body.1 == body.1[..body.0] + body.1[body.0..];
    }
    assert (payload + rest)[..|payload|] == payload && (payload + rest)[|payload|..] == rest;
  }

  /** The types of RFC 9484: 1 assigns, 2 requests, 3 advertises; every other type is kept as it came. */
  lemma TypesExactly(t: U64, payload: Octets)
    ensures var r := DecodePayload(t, payload);
            && (r.Ok? && r.value.AddressAssign? ==> t == 1) && (r.Ok? && r.value.AddressRequest? ==> t == 2)
            && (r.Ok? && r.value.RouteAdvertisement? ==> t == 3)
            && (t !in {1, 2, 3} <==> r == Ok(Unknown(t, payload)))
            && (t == 1 ==> r.Ok? == DecodeEntries(payload, false).Ok?)
            && (t == 2 ==> r.Ok? == (payload != [] && DecodeEntries(payload, true).Ok?))
            && (t == 3 ==> r.Ok? == DecodeRoutes(payload).Ok?)
  {
  }

  /** What `next_capsule` does to a buffer: wait, yield a capsule, or fail; a failed capsule is consumed too. */
  datatype Outcome = NeedMore | Got(capsule: Capsule, rest: Octets) | Bad(error: DecodeError, rest: Octets)

  function Next(buf: Octets): (o: Outcome)
    ensures !o.NeedMore? ==> |o.rest| < |buf|
  {
    match Cut(buf)
    case Partial => NeedMore
    case Whole(typeId, payload, rest) =>
      var c := DecodePayload(typeId, payload);
      if c.Err? then Bad(c.error, rest) else Got(c.value, rest)
  }

  /** Calling `next_capsule` until it waits or fails. */
  datatype Drained = Drained(capsules: seq<Capsule>, error: Option<DecodeError>, rest: Octets)

  function Drain(buf: Octets): Drained
    decreases |buf|
  {
    match Next(buf)
    case NeedMore => Drained([], None, buf)
    case Bad(e, rest) => Drained([], Some(e), rest)
    case Got(c, rest) => After([c], Drain(rest))
  }

  function After(capsules: seq<Capsule>, d: Drained): Drained {
    d.(capsules := capsules + d.capsules)
  }

  lemma AfterAfter(a: seq<Capsule>, b: seq<Capsule>, d: Drained)
    ensures After(a + b, d) == After(a, After(b, d))
    ensures After([], d) == d
  {
    assert a + b + d.capsules == a + (b + d.capsules);
  }

  /** Reading chunk by chunk, draining after each; the first error ends the session. */
  function Feed(buf: Octets, chunks: seq<Octets>): Drained
    decreases |chunks|
  {
    if chunks == [] then Drained([], None, buf)
    else
      var d := Drain(buf + chunks[0]);
      if d.error.Some? then d else After(d.capsules, Feed(d.rest, chunks[1..]))
  }

  function Concat(chunks: seq<Octets>): Octets {
    if chunks == [] then [] else chunks[0] + Concat(chunks[1..])
  }

  lemma CutExtend(buf: Octets, more: Octets)
    requires Cut(buf).Whole?
    ensures Cut(buf + more) == Cut(buf).(rest := Cut(buf).rest + more)
  {
    Varint.ReadExtend(buf, more);
    var view := Varint.Read(buf).value.1;
    Varint.ReadExtend(view, more);
    var (n, body) := Varint.Read(view).value;
    assert (body + more)[..n] == body[..n] && (body + more)[n..] == body[n..] + more;
  }

  /** A capsule, and likewise a failure, is final: later octets only lengthen what is left. */
  lemma NextExtend(buf: Octets, more: Octets)
    requires !Next(buf).NeedMore?
    ensures Next(buf + more) == Next(buf).(rest := Next(buf).rest + more)
  {
    CutExtend(buf, more);
  }

  /** Waiting is never hopeless: some continuation completes any buffer the decoder is waiting on. */
  lemma WaitingCanEnd(buf: Octets) returns (more: Octets)
    ensures !Next(buf + more).NeedMore?
  {
    if Next(buf).NeedMore? {
      var a := Padding(buf);
      var view := Varint.Read(buf + a).value.1;
      var b := Padding(view);
      Varint.ReadExtend(buf + a, b);
      assert buf + (a + b) == buf + a + b;
      var (n, body) := Varint.Read(view + b).value;
      var c: Octets := seq(n, _ => 0);
      Varint.ReadExtend(buf + (a + b), c);
      Varint.ReadExtend(view + b, c);
      assert buf + (a + b + c) == buf + (a + b) + c;
      more := a + b + c;
    } else {
      more := [];
      assert buf + more == buf;
    }
  }

  /** Zeroes that complete a varint. */
  lemma Padding(s: Octets) returns (more: Octets)
    ensures Varint.Read(s + more).Ok?
  {
    more := seq(8, _ => 0);
    assert Varint.Announced((s + more)[0]) <= 8;
  }

  /** Draining early and again later is draining once at the end. */
  lemma {:induction false} DrainExtend(buf: Octets, more: Octets)
    ensures var d := Drain(buf);
            if d.error.None? then Drain(buf + more) == After(d.capsules, Drain(d.rest + more))
            else Drain(buf + more) == d.(rest := d.rest + more)
    decreases |buf|
  {
    match Next(buf)
    case NeedMore => AfterAfter([], [], Drain(buf + more));
    case Bad(_, _) => NextExtend(buf, more);
    case Got(c, rest) =>
      NextExtend(buf, more);
      DrainExtend(rest, more);
      var d := Drain(rest);
      AfterAfter([c], d.capsules, Drain(d.rest + more));
  }

  /** Same capsules, same error, and without an error the same octets left. */
  predicate Agree(fed: Drained, whole: Drained) {
    fed.capsules == whole.capsules && fed.error == whole.error && (fed.error.None? ==> fed.rest == whole.rest)
  }

  /** One chunk: `d` is what draining it gives, `fed` and `whole` what the later octets give fed and at once. */
  lemma FeedStep(buf: Octets, chunks: seq<Octets>, d: Drained, fed: Drained, whole: Drained)
    requires chunks != [] && d == Drain(buf + chunks[0])
    requires d.error.None? ==> fed == Feed(d.rest, chunks[1..]) && Agree(fed, whole)
    ensures Agree(Feed(buf, chunks), if d.error.None? then After(d.capsules, whole) else d)
  {
  }

  lemma ConcatStep(buf: Octets, chunks: seq<Octets>)
    requires chunks != []
    ensures buf + Concat(chunks) == buf + chunks[0] + Concat(chunks[1..])
  {
  }

  /** However the stream is cut into chunks, the same capsules come out, then the same error; without an error the same
      octets stay buffered. */
  lemma {:induction false} ChunkIndependence(buf: Octets, chunks: seq<Octets>)
    requires Next(buf).NeedMore?
    ensures Agree(Feed(buf, chunks), Drain(buf + Concat(chunks)))
    decreases |chunks|
  {
    if chunks == [] {
      assert buf + Concat(chunks) == buf;
    } else {
      var first := buf + chunks[0];
      var later := Concat(chunks[1..]);
      var d := Drain(first);
      ConcatStep(buf, chunks);
      DrainExtend(first, later);
      if d.error.None? {
        DrainedWaits(first);
        ChunkIndependence(d.rest, chunks[1..]);
        FeedStep(buf, chunks, d, Feed(d.rest, chunks[1..]), Drain(d.rest + later));
      } else {
        FeedStep(buf, chunks, d, d, d);
      }
    }
  }

  lemma {:induction false} DrainedWaits(buf: Octets)
    requires Drain(buf).error.None?
    ensures Next(Drain(buf).rest).NeedMore?
    decreases |buf|
  {
    if Next(buf).Got? {
      DrainedWaits(Next(buf).rest);
    }
  }

  function TypeId(c: Capsule): U64 {
    match c
    case AddressAssign(_) => CAPSULE_ADDRESS_ASSIGN
    case AddressRequest(_) => CAPSULE_ADDRESS_REQUEST
    case RouteAdvertisement(_) => CAPSULE_ROUTE_ADVERTISEMENT
    case Unknown(t, _) => t
  }

  /** Request ids that varints can hold; the encoder panics on any other. */
  predicate IdsFit(c: Capsule) {
    match c
    case AddressAssign(es) => forall i :: 0 <= i < |es| ==> es[i].requestId <= Varint.VARINT_MAX
    case AddressRequest(es) => forall i :: 0 <= i < |es| ==> es[i].requestId <= Varint.VARINT_MAX
    case _ => true
  }

  function Payload(c: Capsule): Octets
    requires IdsFit(c)
  {
    match c
    case AddressAssign(es) => EncodeEntries(es)
    case AddressRequest(es) => EncodeEntries(es)
    case RouteAdvertisement(rs) => EncodeRoutes(rs)
    case Unknown(_, data) => data
  }

  /** The length the encoder announces, summed from the declared versions. */
  function PayloadLen(c: Capsule): nat
    requires IdsFit(c)
  {
    match c
    case AddressAssign(es) => EntriesLen(es)
    case AddressRequest(es) => EntriesLen(es)
    case RouteAdvertisement(rs) => RangesLen(Sorting.Sort(rs, RfcLeq))
    case Unknown(_, data) => |data|
  }

  /** Everything the encoder writes as a varint fits one. */
  predicate Writable(c: Capsule) {
    IdsFit(c) && TypeId(c) <= Varint.VARINT_MAX && PayloadLen(c) <= Varint.VARINT_MAX
  }

  /** `encode_capsule`. */
  function Encode(c: Capsule): Octets
    requires Writable(c)
  {
    Varint.Encode(TypeId(c)) + (Varint.Encode(PayloadLen(c)) + Payload(c))
  }

  /** What the wire format can express: versions match addresses, and so on. */
  ghost predicate Encodable(c: Capsule) {
    && Writable(c)
    && match c
       case AddressAssign(es) => EntriesWellFormed(es, false)
       case AddressRequest(es) => EntriesWellFormed(es, true) && es != []
       case RouteAdvertisement(rs) => RangesWellFormed(rs) && DistinctKeys(rs)
       case Unknown(t, _) => t !in {1, 2, 3}
  }

  /** The decoded form: ROUTE_ADVERTISEMENT comes back sorted by (version, protocol, start). */
  function Normal(c: Capsule): Capsule {
    match c
    case RouteAdvertisement(rs) => RouteAdvertisement(Sorting.Sort(rs, RfcLeq))
    case _ => c
  }

  lemma PayloadRoundTrip(c: Capsule)
    requires Encodable(c)
    ensures DecodePayload(TypeId(c), Payload(c)) == Ok(Normal(c))
    ensures |Payload(c)| == PayloadLen(c)
  {
    match c
    case AddressAssign(es) => EntriesRoundTrip(es, false);
    case AddressRequest(es) => EntriesRoundTrip(es, true);
    case RouteAdvertisement(rs) => RoutesRoundTrip(rs);
    case Unknown(_, _) =>
  }

  lemma CutEnvelope(t: U64, payload: Octets, rest: Octets)
    requires t <= Varint.VARINT_MAX && |payload| <= Varint.VARINT_MAX
    ensures Cut(Varint.Encode(t) + (Varint.Encode(|payload|) + payload) + rest) == Whole(t, payload, rest)
  {
    var body := payload + rest;
    var view := Varint.Encode(|payload|) + body;
    assert Varint.Encode(t) + (Varint.Encode(|payload|) + payload) + rest == Varint.Encode(t) + view;
    Varint.ReadEncode(t, view);
    Varint.ReadEncode(|payload|, body);
    assert body[..|payload|] == payload && body[|payload|..] == rest;
  }

  /** A capsule on the wire: its type, the length of its payload, the payload. */
  lemma EnvelopeLayout(c: Capsule)
    requires Encodable(c)
    ensures |Payload(c)| <= Varint.VARINT_MAX
    ensures Encode(c) == Varint.Encode(if c.AddressAssign? then 1 else if c.AddressRequest? then 2
                                       else if c.RouteAdvertisement? then 3 else c.typeId)
                         + Varint.Encode(|Payload(c)|) + Payload(c)
  {
    PayloadRoundTrip(c);
  }

  lemma NextEncode(c: Capsule, rest: Octets)
    requires Encodable(c)
    ensures Next(Encode(c) + rest) == Got(Normal(c), rest)
  {
    PayloadRoundTrip(c);
    CutEnvelope(TypeId(c), Payload(c), rest);
  }

  ghost predicate AllEncodable(cs: seq<Capsule>) {
    forall i :: 0 <= i < |cs| ==> Encodable(cs[i])
  }

  ghost function EncodeAll(cs: seq<Capsule>): Octets
    requires AllEncodable(cs)
  {
    if cs == [] then [] else Encode(cs[0]) + EncodeAll(cs[1..])
  }

  function NormalAll(cs: seq<Capsule>): (r: seq<Capsule>)
    ensures |r| == |cs| && forall i :: 0 <= i < |cs| ==> r[i] == Normal(cs[i])
  {
    if cs == [] then [] else [Normal(cs[0])] + NormalAll(cs[1..])
  }

  lemma {:induction false} DrainEncoded(cs: seq<Capsule>)
    requires AllEncodable(cs)
    ensures Drain(EncodeAll(cs)) == Drained(NormalAll(cs), None, [])
  {
    if cs != [] {
      NextEncode(cs[0], EncodeAll(cs[1..]));
      DrainEncoded(cs[1..]);
    }
  }

  /** End to end: any capsules, encoded one after another and received in any chunks whatever, come out in order, and
      nothing is left over. */
  lemma StreamRoundTrip(cs: seq<Capsule>, chunks: seq<Octets>)
    requires AllEncodable(cs) && Concat(chunks) == EncodeAll(cs)
    ensures Feed([], chunks) == Drained(NormalAll(cs), None, [])
  {
    ChunkIndependence([], chunks);
    assert [] + Concat(chunks) == EncodeAll(cs);
    DrainEncoded(cs);
  }

  /** The encode loop of the address capsules. */
  method AppendEntries(es: seq<AddressEntry>, buf: Octets) returns (out: Octets)
    requires forall i :: 0 <= i < |es| ==> es[i].requestId <= Varint.VARINT_MAX
    ensures out == buf + EncodeEntries(es)
  {
    out := buf;
    for i := 0 to |es|
      invariant out + EncodeEntries(es[i..]) == buf + EncodeEntries(es)
    {
      ghost var tail := EncodeEntries(es[i + 1..]);
      assert es[i..][1..] == es[i + 1..];
      assert out + (EncodeEntry(es[i]) + tail) == out + EncodeEntry(es[i]) + tail;
      out := out + EncodeEntry(es[i]);
    }
  }

  method AppendRanges(rs: seq<IpAddressRange>, buf: Octets) returns (out: Octets)
    ensures out == buf + EncodeRanges(rs)
  {
    out := buf;
    for i := 0 to |rs|
      invariant out + EncodeRanges(rs[i..]) == buf + EncodeRanges(rs)
    {
      ghost var tail := EncodeRanges(rs[i + 1..]);
      assert rs[i..][1..] == rs[i + 1..];
      assert out + (EncodeRange(rs[i]) + tail) == out + EncodeRange(rs[i]) + tail;
      out := out + EncodeRange(rs[i]);
    }
  }

  method AppendPayload(c: Capsule, buf: Octets) returns (out: Octets)
    requires IdsFit(c)
    ensures out == buf + Payload(c)
  {
    match c {
      case AddressAssign(es) => out := AppendEntries(es, buf);
      case AddressRequest(es) => out := AppendEntries(es, buf);
      case RouteAdvertisement(rs) => out := AppendRanges(Sorting.Sort(rs, RfcLeq), buf);
      case Unknown(_, data) => out := buf + data;
    }
  }

  lemma Regroup(a: Octets, b: Octets, c: Octets, d: Octets)
    ensures a + b + c + d == a + (b + (c + d))
  {
  }

  /** `encode_capsule` onto the end of a buffer. */
  method EncodeCapsule(c: Capsule, buf: Octets) returns (out: Octets)
    requires Writable(c)
    ensures out == buf + Encode(c)
  {
    var kind := Varint.Encode(TypeId(c));
    var len := Varint.Encode(PayloadLen(c));
    Regroup(buf, kind, len, Payload(c));
    out := AppendPayload(c, buf + kind + len);
  }

  /** `decode_capsule` on its own, without the buffer's peek: it reports what is missing instead of waiting. */
  method DecodeCapsule(buf: Octets) returns (r: Decoded<Capsule>, rest: Octets)
    ensures Cut(buf).Whole? ==>
              rest == Cut(buf).rest && r == DecodePayload(Cut(buf).typeId, Cut(buf).payload)
    ensures Cut(buf).Partial? ==>
              var first := Varint.Read(buf);
              r == Err(if first.Ok? && Varint.Read(first.value.1).Ok? then
                         BufferTooShort(Varint.Read(first.value.1).value.0, |Varint.Read(first.value.1).value.1|)
                       else Underflow)
  {
    var first := Varint.ReadVarint(buf);
    if first.Err? {
      return Err(first.error), buf;
    }
    var second := Varint.ReadVarint(first.value.1);
    if second.Err? {
      return Err(second.error), first.value.1;
    }
    var (n, body) := second.value;
    if |body| < n {
      return Err(BufferTooShort(n, |body|)), body;
    }
    var payload := body[..n];
    rest := body[n..];
    if first.value.0 == CAPSULE_ADDRESS_ASSIGN {
      var es := DecodeEntryList(payload, false);
      r := if es.Ok? then Ok(AddressAssign(es.value)) else Err(es.error);
    } else if first.value.0 == CAPSULE_ADDRESS_REQUEST {
      var es := DecodeEntryList(payload, true);
      r := if es.Err? then Err(es.error) else if es.value == [] then Err(Underflow) else Ok(AddressRequest(es.value));
    } else if first.value.0 == CAPSULE_ROUTE_ADVERTISEMENT {
      var rs := DecodeRouteList(payload);
      r := if rs.Ok? then Ok(RouteAdvertisement(rs.value)) else Err(rs.error);
    } else {
      r := Ok(Unknown(first.value.0, payload));
    }
  }

  /** `CapsuleBuffer`. */
  class CapsuleBuffer {
    var buf: Octets

    constructor ()
      ensures buf == []
    {
      buf := [];
    }

    /** A chunk arrives as the pieces its `Buf` exposes. */
    method Push(pieces: seq<Octets>)
      modifies this
      ensures buf == old(buf) + Concat(pieces)
    {
      var i := 0;
      assert buf + Concat(pieces[i..]) == old(buf) + Concat(pieces);
      while i < |pieces|
        invariant i <= |pieces|
        invariant buf + Concat(pieces[i..]) == old(buf) + Concat(pieces)
      {
        assert pieces[i..][1..] == pieces[i + 1..];
        assert buf + (pieces[i] + Concat(pieces[i + 1..])) == buf + pieces[i] + Concat(pieces[i + 1..]);
        buf := buf + pieces[i];
        i := i + 1;
      }
    }

    /** `next_capsule`: peek at the envelope, and consume only a whole one. */
    method NextCapsule() returns (r: Decoded<Option<Capsule>>)
      modifies this
      ensures match Next(old(buf))
              case NeedMore => r == Ok(None) && buf == old(buf)
              case Got(c, rest) => r == Ok(Some(c)) && buf == rest
              case Bad(e, rest) => r == Err(e) && buf == rest
    {
      var first := Varint.ReadVarint(buf);
      if first.Err? {
        return Ok(None);
      }
      var second := Varint.ReadVarint(first.value.1);
      if second.Err? || |second.value.1| < second.value.0 {
        return Ok(None);
      }
      var c, rest := DecodeCapsule(buf);
      buf := rest;
      if c.Err? {
        return Err(c.error);
      }
      return Ok(Some(c.value));
    }

    /** The receive loop around the buffer: every capsule of one chunk, up to the first error. */
    method Receive(pieces: seq<Octets>) returns (capsules: seq<Capsule>, error: Option<DecodeError>)
      modifies this
      ensures Drained(capsules, error, buf) == Drain(old(buf) + Concat(pieces))
    {
      Push(pieces);
      capsules, error := [], None;
      ghost var whole := Drain(buf);
      AfterAfter([], [], whole);
      while true
        invariant error.None?
        invariant whole == After(capsules, Drain(buf))
        decreases |buf|
      {
        ghost var before := buf;
        var r := NextCapsule();
        if r.Err? {
          assert capsules + [] == capsules;
          return capsules, Some(r.error);
        }
        if r.value.None? {
          assert capsules + [] == capsules;
          return;
        }
        AfterAfter(capsules, [r.value.value], Drain(buf));
        capsules := capsules + [r.value.value];
      }
    }
  }
}
