/** The client's half of the protocol as the shared-memory code it is, src/p2p/relay_socket.rs. Each method is one
    critical section of `engage` (or of the socket's poll) and takes exactly the step of the transition system named in
    its contract. */
module Lockdown {
  import opened Octets
  import opened Address
  import opened Context
  import opened BindProtocol
  import opened BindSafety

  datatype Outcome = Engaged(peer: SocketAddr) | Proposed(id: ContextId, uncompressed: ContextId) | Refused

  class RelayLockdown {
    const contexts: ContextTable
    var capsules: seq<Capsule>
    var open: bool                   // the pump still listens
    var relayRemotes: set<SocketAddr>

    constructor (contexts: ContextTable, relayPeer: Option<SocketAddr>)
      ensures this.contexts == contexts && capsules == [] && open
      ensures relayRemotes == if relayPeer.Some? then {relayPeer.value} else {}
    {
      this.contexts := contexts;
      capsules, open := [], true;
      relayRemotes := if relayPeer.Some? then {relayPeer.value} else {};
    }

    /** The part of a protocol state this object holds. */
    ghost predicate Abstracts(s: State)
      reads this, contexts
    {
      && s.client == contexts.View() && s.queue == capsules && s.ended == !open
      && relayRemotes == (if s.peer.Some? then {s.peer.value} else {})
    }

    method Peer() returns (r: Option<SocketAddr>)
      ensures forall s :: Abstracts(s) ==> r == s.peer
    {
      if relayRemotes == {} {
        return None;
      }
      var p :| p in relayRemotes;
      return Some(p);
    }

    /** `try_send` on the pump's bounded channel. */
    method TrySend(c: Capsule) returns (ok: bool)
      modifies this`capsules
      ensures ok <==> open && |old(capsules)| < QUEUE_DEPTH
      ensures capsules == if ok then old(capsules) + [c] else old(capsules)
    {
      ok := open && |capsules| < QUEUE_DEPTH;
      if ok {
        capsules := capsules + [c];
      }
    }

    /** Up to the first await: register the peer's compressed context and propose it. */
    method Begin(ghost s: State, ghost task: nat) returns (r: Outcome)
      requires Inv(s) && s.connected && Abstracts(s) && task !in s.engages
      modifies this`capsules, contexts
      ensures s.peer.None? ==> r == Refused && Abstracts(s)
      ensures s.peer.Some? ==>
                var step := EngageBegin(task, OPEN);
                && Enabled(s, step) && Abstracts(Apply(s, step))
                && (r.Proposed? <==> task in Apply(s, step).engages)
                && (r.Proposed? ==> Apply(s, step).engages[task] == Engage(Waiting, r.id, r.uncompressed))
                && (r.Engaged? <==> BOUND in s.client.contexts) && (r.Engaged? ==> r.peer == s.peer.value)
    {
      var peer := Peer();
      if peer.None? {
        return Refused;
      }
      assert OPEN in s.client.contexts ==> OPEN in s.client.UncompressedIds();
      assert forall id :: id in s.client.UncompressedIds() ==> id == OPEN;
      var bound := contexts.Find(Compressed(peer.value));
      if bound.Some? {
        assert bound.value in s.client.CompressedFor(peer.value);
        return Engaged(peer.value);
      }
      assert s.client.CompressedFor(peer.value) == {};
      var uncompressed := contexts.Find(Uncompressed);
      if uncompressed.None? {
        return Refused;
      }
      assert uncompressed.value in s.client.UncompressedIds();
      var id := uncompressed.value + 2;
      var registered := contexts.Register(Assign(id, Compressed(peer.value)));
      if registered.Err? {
        return Refused;
      }
      var sent := TrySend(AssignContext(id, Compressed(peer.value)));
      if !sent {
        return Refused;
      }
      return Proposed(id, uncompressed.value);
    }

    /** The ACK wait gave up: forget the proposal. */
    method Abandon(id: ContextId, ghost s: State, ghost task: nat)
      requires Abstracts(s) && InPhase(s, task, TimedOut) && s.engages[task].compressed == id
      modifies contexts
      ensures Abstracts(Apply(s, EngageAbandon(task)))
    {
      contexts.Close(id);
    }

    /** The bound context is active: hand the CLOSE of the uncompressed one to the pump. */
    method SendClose(uncompressed: ContextId, ghost s: State, ghost task: nat) returns (ok: bool)
      requires Abstracts(s) && InPhase(s, task, Activated) && s.engages[task].uncompressed == uncompressed
      modifies this`capsules
      ensures Abstracts(Apply(s, EngageClose(task))) && (ok <==> Takes(s))
    {
      ok := TrySend(CloseContext(uncompressed));
    }

    /** The CLOSE is queued: drop the uncompressed context locally. */
    method Finish(uncompressed: ContextId, ghost s: State, ghost task: nat)
      requires Abstracts(s) && InPhase(s, task, CloseQueued) && s.engages[task].uncompressed == uncompressed
      modifies contexts
      ensures Abstracts(Apply(s, EngageFinish(task)))
    {
      contexts.Close(uncompressed);
    }

    /** The relay half of `poll_recv`: fill `capacities.len()` buffers from the pump's channel, learning the first source
        if none is known. Returns what was read, each payload cut to its buffer. */
    method PollRecv(inbox: seq<Packet>, capacities: seq<nat>) returns (read: seq<Packet>, rest: seq<Packet>)
      modifies this`relayRemotes
      ensures |read| == Min(|inbox|, |capacities|) && rest == inbox[|read|..]
      ensures forall k :: 0 <= k < |read| ==>
                read[k] == Packet(inbox[k].remote, inbox[k].payload[..Min(|inbox[k].payload|, capacities[k])])
      ensures relayRemotes == if old(relayRemotes) == {} && read != [] then {inbox[0].remote} else old(relayRemotes)
    {
      read, rest := [], inbox;
      while |read| < |capacities| && rest != []
        invariant |read| <= |inbox| && |read| <= |capacities| && rest == inbox[|read|..]
        invariant forall k :: 0 <= k < |read| ==>
                    read[k] == Packet(inbox[k].remote, inbox[k].payload[..Min(|inbox[k].payload|, capacities[k])])
        invariant relayRemotes == if old(relayRemotes) == {} && read != [] then {inbox[0].remote} else old(relayRemotes)
        decreases |rest|
      {
        var p := rest[0];
        if relayRemotes == {} {
          relayRemotes := {p.remote};
        }
        read := read + [Packet(p.remote, p.payload[..Min(|p.payload|, capacities[|read|])])];
        rest := rest[1..];
      }
    }
  }

  /** The send half of the mux: a known relay remote is tunnelled, everything else goes out the direct socket. */
  datatype Route = Tunnel(wire: Octets) | NoContext | Direct

  method RouteSend(relay: RelayLockdown, qsid: ContextId, dst: SocketAddr, payload: Octets, ghost s: State) returns (r: Route)
    requires relay.Abstracts(s) && s.connected
    ensures r.Direct? <==> s.peer != Some(dst)
    ensures r.NoContext? <==> s.peer == Some(dst) && s.client.Framings(dst) == {}
    ensures r.Tunnel? ==> exists id :: Enabled(s, ClientSend(dst, payload, id))
                                       && r.wire == Framed(s.client, qsid, dst, payload, id)
  {
    if dst !in relay.relayRemotes {
      return Direct;
    }
    var body := relay.contexts.Encapsulate(dst, payload);
    if body.None? {
      return NoContext;
    }
    ghost var id :| id in s.client.Framings(dst) && s.client.EncodeDatagram(id, dst, payload) == Ok(body.value);
    assert Enabled(s, ClientSend(dst, payload, id)) && Wire(qsid, body.value) == Framed(s.client, qsid, dst, payload, id);
    return Tunnel(Wire(qsid, body.value));
  }

  /** The relay's capsule handler: one table update and at most one ACK. */
  method HandleContextCapsule(contexts: ContextTable, c: Capsule, ghost s: State) returns (reply: Option<Capsule>)
    requires s.relay == contexts.View()
    modifies contexts
    ensures RelayHandles(s, c) ==
            s.(relay := contexts.View(), toClient := s.toClient + (if reply.Some? then [reply.value] else []))
  {
    reply := None;
    match c {
      case AssignContext(id, binding) =>
        var outcome := contexts.Register(Assign(id, binding));
        if outcome.Ok? {
          outcome := contexts.Ack(id);
        }
        if outcome.Ok? {
          reply := Some(AckContext(id));
        }
      case CloseContext(id) =>
        contexts.Close(id);
      case _ =>
    }
  }

  /** The pump's capsule handler: an ACK promotes whatever is pending under its id, anything else is ignored. */
  method PumpHandles(contexts: ContextTable, c: Capsule, ghost s: State)
    requires s.client == contexts.View() && s.connected
    modifies contexts
    ensures ClientHandles(s, c) == s.(client := contexts.View())
  {
    if c.AckContext? {
      var _ := contexts.Ack(c.id);
    }
  }
}
