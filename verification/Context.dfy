/** Compression contexts of CONNECT-UDP bind, src/udp_bind/context.rs: the table and its codecs. */
module Context {
  import opened Octets
  import opened Address
  import Varint

  type ContextId = x: nat | x <= Varint.VARINT_MAX

  const FIRST_UNCOMPRESSED_CONTEXT: ContextId := 2

  datatype Binding = Uncompressed | Compressed(remote: SocketAddr)

  datatype ContextError =
    | NotClientAllocated(id: ContextId)
    | Duplicate(id: ContextId)
    | Unknown(id: ContextId)
    | Malformed(error: DecodeError)

  datatype BoundDatagram = BoundDatagram(contextId: ContextId, remote: SocketAddr, payload: Octets)

  /** The value of a context table: acknowledged contexts and proposed ones. */
  datatype Table = Table(contexts: map<ContextId, Binding>, pending: map<ContextId, Binding>) {

    function Register(id: ContextId, binding: Binding): Result<Table, ContextError> {
      if id % 2 != 0 then Err(NotClientAllocated(id))
      else if id in contexts || id in pending then Err(Duplicate(id))
      else Ok(this.(pending := pending[id := binding]))
    }

    function Ack(id: ContextId): Result<Table, ContextError> {
      if id !in pending then Err(Unknown(id))
      else Ok(Table(contexts[id := pending[id]], pending - {id}))
    }

    function Close(id: ContextId): Table {
      Table(contexts - {id}, pending - {id})
    }

    /** The active compressed contexts bound to `remote`; the source takes whichever its map yields first. */
    function CompressedFor(remote: SocketAddr): set<ContextId> {
      set id | id in contexts && contexts[id] == Compressed(remote)
    }

    function UncompressedIds(): set<ContextId> {
      set id | id in contexts && contexts[id] == Uncompressed
    }

    /** The contexts `frame_bind` and `encapsulate` may pick for `remote`; none means drop. */
    function Framings(remote: SocketAddr): set<ContextId> {
      if CompressedFor(remote) != {} then CompressedFor(remote) else UncompressedIds()
    }

    function DecodeDatagram(body: Octets): Result<BoundDatagram, ContextError> {
      match Varint.Read(body)
      case Err(e) => Err(Malformed(e))
      case Ok((id, rest)) =>
        if id !in contexts then Err(Unknown(id))
        else match contexts[id] {
          case Compressed(remote) => Ok(BoundDatagram(id, remote, rest))
          case Uncompressed =>
            match GetVersionedAddr(rest)
            case Err(e) => Err(Malformed(e))
            case Ok((remote, payload)) => Ok(BoundDatagram(id, remote, payload))
        }
    }

    function EncodeDatagram(id: ContextId, remote: SocketAddr, payload: Octets): Result<Octets, ContextError> {
      if id !in contexts then Err(Unknown(id)) else Ok(Body(id, contexts[id], remote, payload))
    }
  }

  /** Which contexts carry a datagram for `r`: those bound to it, and where there is none the uncompressed ones. Something
      carries it exactly when an active context is uncompressed or bound to `r`. */
  lemma FramingsExactly(t: Table, r: SocketAddr)
    ensures t.Framings(r) != {} <==>
            exists id :: id in t.contexts && (t.contexts[id] == Uncompressed || t.contexts[id] == Compressed(r))
    ensures forall id :: id in t.Framings(r) <==>
              && id in t.contexts
              && (|| t.contexts[id] == Compressed(r)
                  || (t.contexts[id] == Uncompressed && forall k :: k in t.contexts ==> t.contexts[k] != Compressed(r)))
  {
    if id :| id in t.contexts && (t.contexts[id] == Uncompressed || t.contexts[id] == Compressed(r)) {
      assert id in t.CompressedFor(r) || id in t.UncompressedIds();
    }
    if t.CompressedFor(r) != {} {
      var k :| k in t.CompressedFor(r);
      assert t.contexts[k] == Compressed(r);
    } else {
      assert forall k :: k in t.contexts ==> (t.contexts[k] == Compressed(r) ==> k in t.CompressedFor(r));
    }
  }

  /** The datagram body of context `id` bound as `binding`. */
  function Body(id: ContextId, binding: Binding, remote: SocketAddr, payload: Octets): Octets {
    Varint.Encode(id) + (if binding.Uncompressed? then PutAddr(remote) else []) + payload
  }

  /** Version, address octets, port. */
  function PutAddr(a: SocketAddr): (s: Octets)
    ensures |s| == 3 + a.ip.Width()
  {
    [a.ip.Version()] + a.ip.Bytes() + BE(2, a.port)
  }

  function GetAddr(buf: Octets, version: Byte): (r: Decoded<(SocketAddr, Octets)>) {
    if version != 4 && version != 6 then Err(InvalidIpVersion(version))
    else
      var n := if version == 4 then 4 else 16;
      if |buf| < n + 2 then Err(Underflow)
      else
        ValueBound(buf[n..n + 2]);
        Varint.Powers();
        Ok((SocketAddr(FromBytes(buf[..n]), Value(buf[n..n + 2])), buf[n + 2..]))
  }

  function GetVersionedAddr(buf: Octets): Decoded<(SocketAddr, Octets)> {
    if buf == [] then Err(Underflow) else GetAddr(buf[1..], buf[0])
  }

  lemma Fields(version: Byte, ip: Octets, port: Octets, rest: Octets)
    ensures var s := [version] + ip + port + rest; var n := |ip|; var m := |port|;
            s[0] == version && s[1..][..n] == ip && s[1..][n..n + m] == port && s[1..][n + m..] == rest
  {
    assert ([version] + ip + port + rest)[1..] == ip + port + rest;
  }

  /** The wire form of a socket address: one octet 4 or 6, the address in network order, the port in network order. */
  lemma AddrLayout(a: SocketAddr)
    ensures var s := PutAddr(a); var w := if a.ip.V4? then 4 else 16;
            |s| == w + 3 && s[0] == (if a.ip.V4? then 4 else 6) && FromBytes(s[1..w + 1]) == a.ip && Value(s[w + 1..]) == a.port
  {
    var w := a.ip.Width();
    Fields(a.ip.Version(), a.ip.Bytes(), BE(2, a.port), []);
    assert PutAddr(a)[1..w + 1] == a.ip.Bytes() && PutAddr(a)[w + 1..] == BE(2, a.port);
    BytesRoundTrip(a.ip);
    Varint.Powers();
    ValueOfBE(2, a.port);
  }

  lemma GetPutAddr(a: SocketAddr, rest: Octets)
    ensures GetVersionedAddr(PutAddr(a) + rest) == Ok((a, rest))
  {
    Fields(a.ip.Version(), a.ip.Bytes(), BE(2, a.port), rest);
    BytesRoundTrip(a.ip);
    Varint.Powers();
    ValueOfBE(2, a.port);
  }

  /** Nothing else reads as a socket address. */
  lemma GetAddrExactly(buf: Octets, a: SocketAddr, rest: Octets)
    ensures GetVersionedAddr(buf) == Ok((a, rest)) <==> buf == PutAddr(a) + rest
  {
    if GetVersionedAddr(buf) == Ok((a, rest)) {
      var n := if buf[0] == 4 then 4 else 16;
      var tail := buf[1..];
      FromBytesRoundTrip(tail[..n]);
      BEOfValue(tail[n..n + 2]);
      assert PutAddr(a) == [buf[0]] + tail[..n] + tail[n..n + 2];
      Pieces(buf, n);
    } else if buf == PutAddr(a) + rest {
      GetPutAddr(a, rest);
    }
  }

  lemma Pieces(buf: Octets, n: nat)
    requires |buf| >= n + 3
    ensures buf == [buf[0]] + buf[1..][..n] + buf[1..][n..n + 2] + buf[1..][n + 2..]
  {
  }

  /** Whichever table decodes a body, it is either rejected for lack of the context or read back exactly,
      provided that table binds the id as the sender did and a compressed sender framed its own remote. */
  lemma DecodeOfBody(t: Table, id: ContextId, binding: Binding, remote: SocketAddr, payload: Octets)
    requires id in t.contexts ==> t.contexts[id] == binding
    requires binding.Compressed? ==> binding.remote == remote
    ensures t.DecodeDatagram(Body(id, binding, remote, payload)) ==
            if id in t.contexts then Ok(BoundDatagram(id, remote, payload)) else Err(Unknown(id))
  {
    var address := if binding.Uncompressed? then PutAddr(remote) else [];
    assert Body(id, binding, remote, payload) == Varint.Encode(id) + (address + payload);
    Varint.ReadEncode(id, address + payload);
    if binding.Uncompressed? {
      GetPutAddr(remote, payload);
    } else {
      assert address + payload == payload;
    }
  }

  /** What a body decodes to, for every body: the context it names must be active; a compressed context supplies its own
      remote and the rest is payload, an uncompressed one is followed by the remote. */
  lemma DecodeExactly(t: Table, body: Octets, dg: BoundDatagram)
    ensures t.DecodeDatagram(body) == Ok(dg) <==>
            && Varint.Read(body).Ok? && Varint.Read(body).value.0 == dg.contextId && dg.contextId in t.contexts
            && match t.contexts[dg.contextId]
               case Compressed(remote) => dg.remote == remote && dg.payload == Varint.Read(body).value.1
               case Uncompressed => Varint.Read(body).value.1 == PutAddr(dg.remote) + dg.payload
  {
    if Varint.Read(body).Ok? {
      GetAddrExactly(Varint.Read(body).value.1, dg.remote, dg.payload);
    }
  }

  datatype Assign = Assign(id: ContextId, binding: Binding)

  /** The body of a COMPRESSION_ASSIGN capsule; version 0 marks the uncompressed context. */
  function AssignBody(a: Assign): Octets {
    Varint.Encode(a.id) + (if a.binding.Uncompressed? then [0] else PutAddr(a.binding.remote))
  }

  function DecodeAssign(body: Octets): Decoded<Assign> {
    var (id, rest) :- Varint.Read(body);
    if rest == [] then Err(Underflow)
    else if rest[0] == 0 then
      if |rest| > 1 then Err(TrailingBytes(|rest| - 1)) else Ok(Assign(id, Uncompressed))
    else
      var (remote, tail) :- GetAddr(rest[1..], rest[0]);
      if tail != [] then Err(TrailingBytes(|tail|)) else Ok(Assign(id, Compressed(remote)))
  }

  lemma AssignRoundTrip(a: Assign)
    ensures DecodeAssign(AssignBody(a)) == Ok(a)
  {
    var tail := if a.binding.Uncompressed? then [0] else PutAddr(a.binding.remote);
    Varint.ReadEncode(a.id, tail);
    if a.binding.Compressed? {
      assert tail + [] == tail;
      GetPutAddr(a.binding.remote, []);
    }
  }

  /** What decodes to a proposal: its id, then the octet 0 for the uncompressed context or the remote, and nothing more. */
  lemma AssignExactly(body: Octets, a: Assign)
    ensures DecodeAssign(body) == Ok(a) <==>
            && Varint.Read(body).Ok? && Varint.Read(body).value.0 == a.id
            && Varint.Read(body).value.1 == if a.binding.Uncompressed? then [0] else PutAddr(a.binding.remote)
  {
    if Varint.Read(body).Ok? {
      var rest := Varint.Read(body).value.1;
      if a.binding.Compressed? {
        GetAddrExactly(rest, a.binding.remote, []);
        assert PutAddr(a.binding.remote) + [] == PutAddr(a.binding.remote);
      }
    }
  }

  function DecodeContextId(body: Octets): Decoded<ContextId> {
    var (id, rest) :- Varint.Read(body);
    if rest != [] then Err(TrailingBytes(|rest|)) else Ok(id)
  }

  lemma ContextIdRoundTrip(id: ContextId)
    ensures DecodeContextId(Varint.Encode(id)) == Ok(id)
  {
    assert Varint.Encode(id) + [] == Varint.Encode(id);
    Varint.ReadEncode(id, []);
  }

  /** A body decodes to an id exactly when it is one varint and nothing more. */
  lemma ContextIdExactly(body: Octets, id: ContextId)
    ensures DecodeContextId(body) == Ok(id) <==> Varint.Read(body) == Ok((id, []))
    ensures Varint.Read(body).Ok? && Varint.Read(body).value.1 != [] ==>
              DecodeContextId(body) == Err(TrailingBytes(|Varint.Read(body).value.1|))
  {
  }

  datatype TableOp = RegisterOp(id: ContextId, binding: Binding) | AckOp(id: ContextId) | CloseOp(id: ContextId)

  /** A table after a sequence of operations; a refused one changes nothing. */
  function After(ops: seq<TableOp>): Table {
    if ops == [] then Table(map[], map[])
    else
      var t := After(ops[..|ops| - 1]);
      match ops[|ops| - 1]
      case RegisterOp(id, binding) => if t.Register(id, binding).Ok? then t.Register(id, binding).value else t
      case AckOp(id) => if t.Ack(id).Ok? then t.Ack(id).value else t
      case CloseOp(id) => t.Close(id)
  }

  datatype Status = Absent | Pending(binding: Binding) | Active(binding: Binding)

  /** The life of one context, whatever happens to the others: an even id is proposed once, an ACK makes it active under the
      binding it was proposed with, a CLOSE ends it. */
  function Life(ops: seq<TableOp>, id: ContextId): Status {
    if ops == [] then Absent
    else
      var was := Life(ops[..|ops| - 1], id);
      match ops[|ops| - 1]
      case RegisterOp(k, binding) => if k == id && id % 2 == 0 && was == Absent then Pending(binding) else was
      case AckOp(k) => if k == id && was.Pending? then Active(was.binding) else was
      case CloseOp(k) => if k == id then Absent else was
  }

  predicate Agrees(t: Table, id: ContextId, st: Status) {
    match st
    case Absent => id !in t.contexts && id !in t.pending
    case Pending(b) => id !in t.contexts && id in t.pending && t.pending[id] == b
    case Active(b) => id in t.contexts && t.contexts[id] == b && id !in t.pending
  }

  /** The two maps of a table hold exactly the lives of its contexts. */
  lemma {:induction false} TableRefines(ops: seq<TableOp>, id: ContextId)
    ensures Agrees(After(ops), id, Life(ops, id))
  {
    if ops != [] {
      TableRefines(ops[..|ops| - 1], id);
    }
  }

  /** The mutable table both ends share between their tasks; every method is one critical section. */
  class ContextTable {
    var contexts: map<ContextId, Binding>
    var pending: map<ContextId, Binding>

    ghost function View(): Table
      reads this
    {
      Table(contexts, pending)
    }

    constructor ()
      ensures View() == Table(map[], map[])
    {
      contexts, pending := map[], map[];
    }

    method Register(assign: Assign) returns (r: Result<(), ContextError>)
      modifies this
      ensures var after := old(View()).Register(assign.id, assign.binding);
              if after.Ok? then r == Ok(()) && View() == after.value
              else r == Err(after.error) && View() == old(View())
    {
      if assign.id % 2 != 0 {
        return Err(NotClientAllocated(assign.id));
      }
      if assign.id in contexts || assign.id in pending {
        return Err(Duplicate(assign.id));
      }
      pending := pending[assign.id := assign.binding];
      return Ok(());
    }

    method Ack(id: ContextId) returns (r: Result<(), ContextError>)
      modifies this
      ensures var after := old(View()).Ack(id);
              if after.Ok? then r == Ok(()) && View() == after.value
              else r == Err(after.error) && View() == old(View())
    {
      if id !in pending {
        return Err(Unknown(id));
      }
      var binding := pending[id];
      pending := pending - {id};
      contexts := contexts[id := binding];
      return Ok(());
    }

    method Close(id: ContextId)
      modifies this
      ensures View() == old(View()).Close(id)
    {
      contexts := contexts - {id};
      pending := pending - {id};
    }

    /** `binding`: what an active context is bound to. */
    method BindingOf(id: ContextId) returns (r: Option<Binding>)
      ensures r.Some? <==> id in View().contexts
      ensures r.Some? ==> r.value == View().contexts[id]
    {
      return if id in contexts then Some(contexts[id]) else None;
    }

    /** `find_map` over a hash map: some matching id, in no promised order. */
    method Find(wanted: Binding) returns (r: Option<ContextId>)
      ensures r.Some? ==> r.value in contexts && contexts[r.value] == wanted
      ensures r.None? ==> forall id :: id in contexts ==> contexts[id] != wanted
    {
      var left := contexts.Keys;
      while left != {}
        invariant left <= contexts.Keys
        invariant forall id :: id in contexts && id !in left ==> contexts[id] != wanted
        decreases |left|
      {
        var id :| id in left;
        if contexts[id] == wanted {
          return Some(id);
        }
        left := left - {id};
      }
      return None;
    }

    /** The context choice of `frame_bind` and `encapsulate`, and the body it frames. */
    method Encapsulate(remote: SocketAddr, payload: Octets) returns (r: Option<Octets>)
      ensures r.None? <==> View().Framings(remote) == {}
      ensures r.None? <==> forall id :: id in contexts ==> contexts[id] != Uncompressed && contexts[id] != Compressed(remote)
      ensures r.Some? ==> exists id ::
                            && id in View().Framings(remote)
                            && View().EncodeDatagram(id, remote, payload) == Ok(r.value)
    {
      FramingsExactly(View(), remote);
      var found := Find(Compressed(remote));
      if found.None? {
        assert View().CompressedFor(remote) == {};
        found := Find(Uncompressed);
        if found.None? {
          assert View().UncompressedIds() == {};
          return None;
        }
        assert found.value in View().UncompressedIds();
      } else {
        assert found.value in View().CompressedFor(remote);
      }
      var body := Body(found.value, contexts[found.value], remote, payload);
      assert View().EncodeDatagram(found.value, remote, payload) == Ok(body);
      return Some(body);
    }
  }
}
