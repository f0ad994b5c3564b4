/** The bind-context protocol between a peer (client) and its relay as a transition system.

    The state holds both context tables, the ordered capsule streams, every datagram ever put in flight, and the
    program counters of any number of concurrent `engage` calls. A datagram may be delivered late, out of order,
    repeatedly or never, so the in-flight sets only grow.

    Sources: src/client.rs (`BindClient::connect`, the pump of `into_relay_parts`), src/p2p/relay_socket.rs
    (`frame_bind`, `RelayLockdown::engage`, peer learning), src/udp_bind/handler.rs (`handle_context_capsule`) and
    src/udp_bind/socket.rs (`encapsulate`, `BindSocket::run`). */
module BindProtocol {
  import opened Octets
  import opened Address
  import opened Context
  import Varint

  datatype Capsule = AssignContext(id: ContextId, binding: Binding) | AckContext(id: ContextId) | CloseContext(id: ContextId)
                   | ObservedAddress(addr: SocketAddr)

  /** A datagram on the wire, with the remote and payload its sender meant (never seen by a receiver). */
  datatype Datagram = Datagram(wire: Octets, remote: SocketAddr, payload: Octets)

  datatype Packet = Packet(remote: SocketAddr, payload: Octets)

  /** Where one `engage` call stands between its critical sections. */
  datatype Phase = Waiting | TimedOut | Activated | CloseQueued

  datatype Engage = Engage(phase: Phase, compressed: ContextId, uncompressed: ContextId)

  datatype State = State(
    qsid: ContextId,
    client: Table,
    relay: Table,
    connected: bool,                 // the client has processed the first ACK
    ended: bool,                     // the pump is gone: stream or connection over
    queue: seq<Capsule>,             // engage -> pump channel
    toRelay: seq<Capsule>,           // request stream, client to relay
    toClient: seq<Capsule>,          // request stream, relay to client
    up: set<Datagram>,               // ever sent by the client
    down: set<Datagram>,             // ever sent by the relay
    emitted: set<Packet>,            // UDP the relay has sent to the network
    inbox: seq<Packet>,              // decoded by the pump, not yet polled
    delivered: set<Packet>,          // ever decoded by the pump
    peer: Option<SocketAddr>,        // relay_remotes: at most one, never replaced
    engages: map<nat, Engage>)

  const QUEUE_DEPTH: nat := 8

  datatype Step =
    | RelayCapsule
    | ClientCapsule
    | PumpCapsule
    | PumpEnds
    | ClientSend(dst: SocketAddr, payload: Octets, id: ContextId)
    | RelayReceive(d: Datagram, forwarded: bool)
    | NetworkReceive(remote: SocketAddr, payload: Octets, id: ContextId)
    | ClientReceive(d: Datagram, queued: bool)
    | PollReceive
    | EngageBegin(task: nat, uncompressed: ContextId)
    | EngageObserve(task: nat)
    | EngageTimeout(task: nat)
    | EngageAbandon(task: nat)
    | EngageDrop(task: nat)
    | EngageClose(task: nat)
    | EngageFinish(task: nat)

  /** The wire form: quarter stream id, then the datagram body. */
  function Wire(qsid: ContextId, body: Octets): Octets {
    Varint.Encode(qsid) + body
  }

  /** What an end makes of a received datagram: foreign sessions and undecodable bodies are dropped. */
  function Receive(t: Table, qsid: ContextId, wire: Octets): Option<BoundDatagram> {
    match Varint.Read(wire)
    case Err(_) => None
    case Ok((got, body)) =>
      if got != qsid then None
      else match t.DecodeDatagram(body) {
        case Err(_) => None
        case Ok(dg) => Some(dg)
      }
  }

  /** `frame_bind` and `encapsulate` once they have picked context `id` for `dst`. */
  function Framed(t: Table, qsid: ContextId, dst: SocketAddr, payload: Octets, id: ContextId): Octets
    requires id in t.Framings(dst)
  {
    Wire(qsid, Body(id, t.contexts[id], dst, payload))
  }

  predicate Init(s: State) {
    && s.client == Table(map[], map[FIRST_UNCOMPRESSED_CONTEXT := Uncompressed])
    && s.relay == Table(map[], map[])
    && !s.connected && !s.ended
    && s.queue == [] && s.toRelay == [AssignContext(FIRST_UNCOMPRESSED_CONTEXT, Uncompressed)]
    && (forall c :: c in s.toClient ==> c.ObservedAddress?)
    && s.up == {} && s.down == {} && s.emitted == {} && s.inbox == [] && s.delivered == {}
    && s.engages == map[]
  }

  predicate InPhase(s: State, task: nat, phase: Phase) {
    task in s.engages && s.engages[task].phase == phase
  }

  /** `try_send` on the pump's bounded channel succeeds: it is neither closed nor full. */
  predicate Takes(s: State) {
    !s.ended && |s.queue| < QUEUE_DEPTH
  }

  predicate Enabled(s: State, step: Step) {
    match step
    case RelayCapsule => s.toRelay != []
    case ClientCapsule => s.toClient != [] && !s.ended
    case PumpCapsule => s.connected && s.queue != [] && !s.ended
    case PumpEnds => s.connected
    case ClientSend(dst, _, id) => s.connected && id in s.client.Framings(dst)
    case RelayReceive(d, _) => d in s.up
    case NetworkReceive(remote, _, id) => id in s.relay.Framings(remote)
    case ClientReceive(d, _) => s.connected && d in s.down && !s.ended
    case PollReceive => s.inbox != []
    case EngageBegin(task, u) =>
      && s.connected && s.peer.Some? && task !in s.engages
      && (s.client.UncompressedIds() != {} ==> u in s.client.UncompressedIds())
      && u + 2 <= Varint.VARINT_MAX
    case EngageObserve(task) => InPhase(s, task, Waiting) && s.engages[task].compressed in s.client.contexts
    case EngageTimeout(task) => InPhase(s, task, Waiting)
    case EngageAbandon(task) => InPhase(s, task, TimedOut)
    case EngageDrop(task) => InPhase(s, task, Waiting)
    case EngageClose(task) => InPhase(s, task, Activated)
    case EngageFinish(task) => InPhase(s, task, CloseQueued)
  }

  function Apply(s: State, step: Step): State
    requires Enabled(s, step)
  {
    match step
    case RelayCapsule => RelayNext(s)
    case ClientCapsule => ClientNext(s)
    case PumpCapsule => s.(queue := s.queue[1..], toRelay := s.toRelay + [s.queue[0]])
    case PumpEnds => s.(ended := true)
    case ClientSend(dst, payload, id) =>
      s.(up := s.up + {Datagram(Framed(s.client, s.qsid, dst, payload, id), dst, payload)})
    case RelayReceive(d, forwarded) =>
      var dg := Receive(s.relay, s.qsid, d.wire);
      if dg.Some? && forwarded then s.(emitted := s.emitted + {Packet(dg.value.remote, dg.value.payload)}) else s
    case NetworkReceive(remote, payload, id) =>
      s.(down := s.down + {Datagram(Framed(s.relay, s.qsid, remote, payload, id), remote, payload)})
    case ClientReceive(d, queued) =>
      var dg := Receive(s.client, s.qsid, d.wire);
      if dg.None? || !queued then s
      else
        var p := Packet(dg.value.remote, dg.value.payload);
        s.(inbox := s.inbox + [p], delivered := s.delivered + {p})
    case PollReceive =>
      s.(inbox := s.inbox[1..], peer := if s.peer.None? then Some(s.inbox[0].remote) else s.peer)
    case EngageBegin(task, u) => Begun(s, task, u)
    case EngageObserve(task) => s.(engages := s.engages[task := s.engages[task].(phase := Activated)])
    case EngageTimeout(task) => s.(engages := s.engages[task := s.engages[task].(phase := TimedOut)])
    case EngageAbandon(task) => s.(client := s.client.Close(s.engages[task].compressed), engages := s.engages - {task})
    case EngageDrop(task) => s.(engages := s.engages - {task})
    case EngageClose(task) =>
      if !Takes(s) then s.(engages := s.engages - {task})
      else s.(queue := s.queue + [CloseContext(s.engages[task].uncompressed)],
              engages := s.engages[task := s.engages[task].(phase := CloseQueued)])
    case EngageFinish(task) =>
      s.(client := s.client.Close(s.engages[task].uncompressed), engages := s.engages - {task})
  }

  /** `handle_context_capsule` at the relay: a registered context is active and acknowledged at once. */
  function RelayHandles(s: State, c: Capsule): State {
    match c
    case AssignContext(id, binding) =>
      (match s.relay.Register(id, binding)
       case Err(_) => s
       case Ok(t) =>
         match t.Ack(id)
         case Err(_) => s
         case Ok(t') => s.(relay := t', toClient := s.toClient + [AckContext(id)]))
    case CloseContext(id) => s.(relay := s.relay.Close(id))
    case _ => s
  }

  function RelayNext(s: State): State
    requires s.toRelay != []
  {
    RelayHandles(s.(toRelay := s.toRelay[1..]), s.toRelay[0])
  }

  /** The client's capsule loops: `connect` waits for its own ACK, the pump promotes any pending context. */
  function ClientHandles(s: State, c: Capsule): State {
    if !c.AckContext? then s
    else if !s.connected then
      if c.id != FIRST_UNCOMPRESSED_CONTEXT then s
      else match s.client.Ack(c.id) {
        case Err(_) => s
        case Ok(t) => s.(client := t, connected := true)
      }
    else match s.client.Ack(c.id) {
      case Err(_) => s
      case Ok(t) => s.(client := t)
    }
  }

  function ClientNext(s: State): State
    requires s.toClient != []
  {
    ClientHandles(s.(toClient := s.toClient[1..]), s.toClient[0])
  }

  /** The first critical section of `engage`. */
  function Begun(s: State, task: nat, u: ContextId): State
    requires s.peer.Some? && u + 2 <= Varint.VARINT_MAX
  {
    var peer := s.peer.value;
    if s.client.CompressedFor(peer) != {} || s.client.UncompressedIds() == {} then s
    else match s.client.Register(u + 2, Compressed(peer)) {
      case Err(_) => s
      case Ok(t) =>
        if !Takes(s) then s.(client := t)
        else s.(client := t, queue := s.queue + [AssignContext(u + 2, Compressed(peer))],
                engages := s.engages[task := Engage(Waiting, u + 2, u)])
    }
  }

  ghost predicate Next(s: State, s': State) {
    exists step :: Enabled(s, step) && s' == Apply(s, step)
  }

  ghost predicate IsRun(run: seq<State>) {
    run != [] && Init(run[0]) && forall i {:trigger Follows(run, i)} :: 0 <= i < |run| - 1 ==> Follows(run, i)
  }

  /** State `i` of a run steps to the one after it. */
  ghost predicate Follows(run: seq<State>, i: nat)
    requires i + 1 < |run|
  {
    Next(run[i], run[i + 1])
  }
}
