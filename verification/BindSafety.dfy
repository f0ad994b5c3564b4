/** What every reachable state of the bind-context protocol keeps, and what follows for the datagrams. */
module BindSafety {
  import opened Octets
  import opened Address
  import opened Context
  import opened BindProtocol
  import Varint

  const OPEN: ContextId := FIRST_UNCOMPRESSED_CONTEXT
  const BOUND: ContextId := 4

  /** The only bindings ever proposed: the open context, and the learned peer on the next even id. */
  predicate Issued(s: State, id: ContextId, b: Binding) {
    || (id == OPEN && b == Uncompressed)
    || (id == BOUND && s.peer.Some? && b == Compressed(s.peer.value))
  }

  predicate TableIssued(s: State, t: Table) {
    && (forall id :: id in t.contexts ==> Issued(s, id, t.contexts[id]))
    && (forall id :: id in t.pending ==> Issued(s, id, t.pending[id]))
  }

  /** Capsules on their way to the relay. */
  predicate Outbound(s: State, c: Capsule) {
    || (c.AssignContext? && c.id == BOUND && Issued(s, c.id, c.binding))
    || c == CloseContext(OPEN)
    || (!s.connected && c == AssignContext(OPEN, Uncompressed))
  }

  predicate CapsulesIssued(s: State) {
    && (forall c :: c in s.queue ==> Outbound(s, c))
    && (forall c :: c in s.toRelay ==> Outbound(s, c))
    && (AckContext(BOUND) in s.toClient ==> BOUND in s.relay.contexts)
  }

  predicate Tables(s: State) {
    && TableIssued(s, s.client) && TableIssued(s, s.relay)
    && s.relay.pending == map[]
    && (BOUND in s.client.contexts ==> BOUND in s.relay.contexts)
  }

  /** A CLOSE of the open context has been handed to the pump. */
  predicate Closing(s: State) {
    CloseContext(OPEN) in s.queue || CloseContext(OPEN) in s.toRelay || OPEN !in s.relay.contexts
  }

  predicate Connecting(s: State) {
    && s.client.contexts == map[] && BOUND !in s.client.pending
    && BOUND !in s.relay.contexts
    && s.queue == [] && s.engages == map[] && s.up == {} && s.inbox == []
    && (s.toRelay == [] || (s.toRelay == [AssignContext(OPEN, Uncompressed)] && OPEN !in s.relay.contexts))
    && (AckContext(OPEN) in s.toClient ==> OPEN in s.relay.contexts)
  }

  /** At most one `engage` is past its first critical section, and it owns the bound id. */
  predicate Exclusive(s: State) {
    && (forall t, t' :: t in s.engages && t' in s.engages ==> t == t')
    && (forall t :: t in s.engages ==>
          && s.engages[t].compressed == BOUND && s.engages[t].uncompressed == OPEN
          && (BOUND in s.client.pending || BOUND in s.client.contexts)
          && (s.engages[t].phase in {Activated, CloseQueued} ==> BOUND in s.client.contexts)
          && (s.engages[t].phase == CloseQueued ==> Closing(s)))
  }

  /** The ordering argument: once the open context is being closed, the bound one is active for good. */
  predicate Ordered(s: State) {
    && OPEN !in s.client.pending
    && (OPEN !in s.client.contexts ==> Closing(s))
    && (Closing(s) ==>
          && BOUND in s.client.contexts
          && (forall t :: t in s.engages ==> s.engages[t].phase == CloseQueued))
  }

  /** Every datagram was framed on an issued context, for its own remote if that context is compressed. */
  ghost predicate Honest(s: State, d: Datagram) {
    exists id, b ::
      && Issued(s, id, b)
      && (b.Compressed? ==> b.remote == d.remote)
      && d.wire == Wire(s.qsid, Body(id, b, d.remote, d.payload))
  }

  ghost predicate Datagrams(s: State) {
    && (forall d :: d in s.up ==> Honest(s, d))
    && (forall d :: d in s.down ==> Honest(s, d))
  }

  predicate Sent(p: Packet, ds: set<Datagram>) {
    exists d :: d in ds && d.remote == p.remote && d.payload == p.payload
  }

  /** Nothing leaves either end that the other end was not asked to carry. */
  predicate Attributed(s: State) {
    && (forall p :: p in s.emitted ==> Sent(p, s.up))
    && (forall p :: p in s.delivered ==> Sent(p, s.down))
    && (forall p :: p in s.inbox ==> p in s.delivered)
  }

  ghost predicate Inv(s: State) {
    && Tables(s) && CapsulesIssued(s) && Exclusive(s) && Datagrams(s) && Attributed(s)
    && (!s.connected ==> Connecting(s))
    && (s.connected ==> Ordered(s))
  }

  lemma InitInv(s: State)
    requires Init(s)
    ensures Inv(s)
  {
  }

  /** Steps that move no context, capsule or program counter keep the control half. */
  predicate SameControl(s: State, s': State) {
    && s'.qsid == s.qsid && s'.client == s.client && s'.relay == s.relay && s'.connected == s.connected
    && s'.queue == s.queue && s'.toRelay == s.toRelay && s'.toClient == s.toClient
    && s'.engages == s.engages
  }

  lemma HonestKept(s: State, s': State, d: Datagram)
    requires Honest(s, d) && s'.qsid == s.qsid
    requires s.peer.Some? ==> s'.peer == s.peer
    ensures Honest(s', d)
  {
    var id, b :| Issued(s, id, b) && (b.Compressed? ==> b.remote == d.remote)
                 && d.wire == Wire(s.qsid, Body(id, b, d.remote, d.payload));
    assert Issued(s', id, b);
  }

  lemma DatagramsKept(s: State, s': State)
    requires Datagrams(s) && s'.qsid == s.qsid && s'.up == s.up && s'.down == s.down
    requires s.peer.Some? ==> s'.peer == s.peer
    ensures Datagrams(s')
  {
    forall d | d in s.up || d in s.down
      ensures Honest(s', d)
    {
      HonestKept(s, s', d);
    }
  }

  /** Receiving an honest datagram yields exactly what was sent, or nothing. */
  lemma HonestReceive(s: State, t: Table, d: Datagram)
    requires Honest(s, d) && TableIssued(s, t)
    ensures var r := Receive(t, s.qsid, d.wire);
            r.Some? ==> r.value.remote == d.remote && r.value.payload == d.payload
  {
    var id, b :| Issued(s, id, b) && (b.Compressed? ==> b.remote == d.remote)
                 && d.wire == Wire(s.qsid, Body(id, b, d.remote, d.payload));
    ReceiveWire(t, s.qsid, id, b, d.remote, d.payload);
  }

  lemma ReceiveWire(t: Table, qsid: ContextId, id: ContextId, b: Binding, remote: SocketAddr, payload: Octets)
    requires id in t.contexts ==> t.contexts[id] == b
    requires b.Compressed? ==> b.remote == remote
    ensures Receive(t, qsid, Wire(qsid, Body(id, b, remote, payload))) ==
            if id in t.contexts then Some(BoundDatagram(id, remote, payload)) else None
  {
    Varint.ReadEncode(qsid, Body(id, b, remote, payload));
    DecodeOfBody(t, id, b, remote, payload);
  }

  /** A datagram of another session is dropped whatever it says. */
  lemma ForeignDropped(t: Table, qsid: ContextId, other: ContextId, body: Octets)
    requires other != qsid
    ensures Receive(t, qsid, Wire(other, body)) == None
  {
    Varint.ReadEncode(other, body);
  }

  lemma FramedHonest(s: State, t: Table, dst: SocketAddr, payload: Octets, id: ContextId)
    requires TableIssued(s, t) && id in t.Framings(dst)
    ensures Honest(s, Datagram(Framed(t, s.qsid, dst, payload, id), dst, payload))
  {
    var b := t.contexts[id];
    assert Issued(s, id, b);
    assert b.Compressed? ==> b.remote == dst;
  }

  lemma ControlKept(s: State, s': State)
    requires Inv(s) && SameControl(s, s') && s'.peer == s.peer
    requires !s.connected ==> s'.up == s.up && s'.inbox == s.inbox
    ensures Tables(s') && CapsulesIssued(s') && Exclusive(s')
    ensures if s'.connected then Ordered(s') else Connecting(s')
  {
  }

  /** One more honest datagram in flight, either way. */
  lemma InFlightKept(s: State, s': State, d: Datagram)
    requires Inv(s) && Honest(s, d)
    requires (s.connected && s' == s.(up := s.up + {d})) || s' == s.(down := s.down + {d})
    ensures Inv(s')
  {
    ControlKept(s, s');
    forall e | e in s'.up || e in s'.down
      ensures Honest(s', e)
    {
      HonestKept(s, s', e);
    }
    SentKept(s, s');
  }

  lemma SendInv(s: State, dst: SocketAddr, payload: Octets, id: ContextId)
    requires Inv(s) && Enabled(s, ClientSend(dst, payload, id))
    ensures Inv(Apply(s, ClientSend(dst, payload, id)))
  {
    FramedHonest(s, s.client, dst, payload, id);
    InFlightKept(s, Apply(s, ClientSend(dst, payload, id)), Datagram(Framed(s.client, s.qsid, dst, payload, id), dst, payload));
  }

  lemma NetworkInv(s: State, remote: SocketAddr, payload: Octets, id: ContextId)
    requires Inv(s) && Enabled(s, NetworkReceive(remote, payload, id))
    ensures Inv(Apply(s, NetworkReceive(remote, payload, id)))
  {
    var d := Datagram(Framed(s.relay, s.qsid, remote, payload, id), remote, payload);
    FramedHonest(s, s.relay, remote, payload, id);
    InFlightKept(s, Apply(s, NetworkReceive(remote, payload, id)), d);
  }

  lemma SentKept(s: State, s': State)
    requires Attributed(s) && s.up <= s'.up && s.down <= s'.down
    requires s'.emitted == s.emitted && s'.delivered == s.delivered && s'.inbox == s.inbox
    ensures Attributed(s')
  {
    forall p | p in s'.emitted
      ensures Sent(p, s'.up)
    {
      assert Sent(p, s.up);
    }
    forall p | p in s'.delivered
      ensures Sent(p, s'.down)
    {
      assert Sent(p, s.down);
    }
  }

  lemma EmittedKept(s: State, s': State, p: Packet)
    requires Inv(s) && s' == s.(emitted := s.emitted + {p}) && Sent(p, s.up)
    ensures Inv(s')
  {
    ControlKept(s, s');
    DatagramsKept(s, s');
  }

  lemma DeliveredKept(s: State, s': State, p: Packet)
    requires Inv(s) && s' == s.(inbox := s.inbox + [p], delivered := s.delivered + {p}) && Sent(p, s.down) && s.connected
    ensures Inv(s')
  {
    ControlKept(s, s');
    DatagramsKept(s, s');
  }

  lemma RelayReceiveInv(s: State, d: Datagram, forwarded: bool)
    requires Inv(s) && Enabled(s, RelayReceive(d, forwarded))
    ensures Inv(Apply(s, RelayReceive(d, forwarded)))
  {
    HonestReceive(s, s.relay, d);
    var dg := Receive(s.relay, s.qsid, d.wire);
    if dg.Some? && forwarded {
      EmittedKept(s, Apply(s, RelayReceive(d, forwarded)), Packet(dg.value.remote, dg.value.payload));
    }
  }

  lemma ClientReceiveInv(s: State, d: Datagram, queued: bool)
    requires Inv(s) && Enabled(s, ClientReceive(d, queued))
    ensures Inv(Apply(s, ClientReceive(d, queued)))
  {
    HonestReceive(s, s.client, d);
    var dg := Receive(s.client, s.qsid, d.wire);
    if dg.Some? && queued {
      DeliveredKept(s, Apply(s, ClientReceive(d, queued)), Packet(dg.value.remote, dg.value.payload));
    }
  }

  lemma PollInv(s: State)
    requires Inv(s) && Enabled(s, PollReceive)
    ensures Inv(Apply(s, PollReceive))
  {
    DatagramsKept(s, Apply(s, PollReceive));
  }

  lemma PumpInv(s: State)
    requires Inv(s) && Enabled(s, PumpCapsule)
    ensures Inv(Apply(s, PumpCapsule))
  {
    var s' := Apply(s, PumpCapsule);
    DatagramsKept(s, s');
    assert s.queue == [s.queue[0]] + s'.queue;
    assert Outbound(s, s.queue[0]);
    forall c | c in s'.toRelay || c in s'.queue
      ensures Outbound(s', c)
    {
      assert c in s.toRelay || c in s.queue;
      assert Outbound(s, c);
    }
    assert Closing(s) <==> Closing(s');
  }

  lemma TakenOutbound(s: State, s': State)
    requires CapsulesIssued(s) && s.toRelay != [] && s'.toRelay == s.toRelay[1..]
    requires s'.queue == s.queue && s'.peer == s.peer && s'.connected == s.connected
    ensures Outbound(s, s.toRelay[0])
    ensures forall c :: c in s'.toRelay || c in s'.queue ==> Outbound(s', c)
  {
    assert s.toRelay == [s.toRelay[0]] + s'.toRelay;
    forall c | c in s'.toRelay || c in s'.queue
      ensures Outbound(s', c)
    {
      assert c in s.toRelay || c in s.queue;
    }
  }

  lemma RelayOpenInv(s: State)
    requires Inv(s) && s.toRelay != [] && s.toRelay[0].AssignContext? && !s.connected
    ensures Inv(RelayNext(s))
  {
    var s' := RelayNext(s);
    DatagramsKept(s, s');
    TakenOutbound(s, s');
  }

  /** An ASSIGN the relay refuses. */
  lemma RefusedInv(s: State, s': State)
    requires Inv(s) && s.connected && s.toRelay != [] && s.toRelay[0].AssignContext? && s' == s.(toRelay := s.toRelay[1..])
    ensures Inv(s')
  {
    DatagramsKept(s, s');
    TakenOutbound(s, s');
    assert s.toRelay == [s.toRelay[0]] + s'.toRelay;
  }

  /** The bound context becomes active at the relay, and its ACK goes out. */
  lemma GrantedInv(s: State, s': State, peer: SocketAddr)
    requires Inv(s) && s.connected && s.peer == Some(peer)
    requires s' == s.(relay := Table(s.relay.contexts[BOUND := Compressed(peer)], map[]),
                      toClient := s.toClient + [AckContext(BOUND)])
    ensures Inv(s')
  {
    DatagramsKept(s, s');
  }

  lemma RelayAssignInv(s: State)
    requires Inv(s) && s.toRelay != [] && s.toRelay[0].AssignContext? && s.connected
    ensures Inv(RelayNext(s))
  {
    assert Outbound(s, s.toRelay[0]);
    var t := s.(toRelay := s.toRelay[1..]);
    RefusedInv(s, t);
    if BOUND !in s.relay.contexts {
      GrantedInv(t, RelayNext(s), s.peer.value);
    }
  }

  lemma RelayCloseInv(s: State)
    requires Inv(s) && s.toRelay != [] && !s.toRelay[0].AssignContext?
    ensures Inv(RelayNext(s))
  {
    var s' := RelayNext(s);
    DatagramsKept(s, s');
    TakenOutbound(s, s');
    assert s.toRelay == [s.toRelay[0]] + s'.toRelay;
  }

  lemma RelayCapsuleInv(s: State)
    requires Inv(s) && s.toRelay != []
    ensures Inv(RelayNext(s))
  {
    if !s.toRelay[0].AssignContext? {
      RelayCloseInv(s);
    } else if s.connected {
      RelayAssignInv(s);
    } else {
      RelayOpenInv(s);
    }
  }

  lemma ConnectCapsuleInv(s: State)
    requires Inv(s) && s.toClient != [] && !s.connected
    ensures Inv(ClientNext(s))
  {
    var s' := ClientNext(s);
    DatagramsKept(s, s');
    assert s.toClient == [s.toClient[0]] + s'.toClient;
  }

  /** A capsule the pump ignores. */
  lemma IgnoredInv(s: State, s': State)
    requires Inv(s) && s.connected && s.toClient != [] && s' == s.(toClient := s.toClient[1..])
    ensures Inv(s')
  {
    DatagramsKept(s, s');
    assert AckContext(BOUND) in s'.toClient ==> AckContext(BOUND) in s.toClient;
  }

  /** The ACK of the bound context. */
  lemma PromotedInv(s: State, s': State)
    requires Inv(s) && s.connected && AckContext(BOUND) in s.toClient && BOUND in s.client.pending
    requires s' == s.(client := Table(s.client.contexts[BOUND := s.client.pending[BOUND]], s.client.pending - {BOUND}))
    ensures Inv(s')
  {
    DatagramsKept(s, s');
  }

  lemma PumpedCapsuleInv(s: State)
    requires Inv(s) && s.toClient != [] && s.connected
    ensures Inv(ClientNext(s))
  {
    var c := s.toClient[0];
    if c.AckContext? && c.id in s.client.pending {
      assert c.id == BOUND;
      var t := s.(client := Table(s.client.contexts[BOUND := s.client.pending[BOUND]], s.client.pending - {BOUND}));
      PromotedInv(s, t);
      IgnoredInv(t, ClientNext(s));
    } else {
      IgnoredInv(s, ClientNext(s));
    }
  }

  lemma ClientCapsuleInv(s: State)
    requires Inv(s) && s.toClient != []
    ensures Inv(ClientNext(s))
  {
    if s.connected {
      PumpedCapsuleInv(s);
    } else {
      ConnectCapsuleInv(s);
    }
  }

  lemma EndInv(s: State)
    requires Inv(s) && s.connected
    ensures Inv(s.(ended := true))
  {
    ControlKept(s, s.(ended := true));
    DatagramsKept(s, s.(ended := true));
  }

  /** A table with the open context and no compressed one for the peer has nothing active on the bound id. */
  lemma BeginInv(s: State, task: nat, u: ContextId)
    requires Inv(s) && Enabled(s, EngageBegin(task, u))
    ensures Inv(Begun(s, task, u))
  {
    var s' := Begun(s, task, u);
    DatagramsKept(s, s');
    assert BOUND in s.client.contexts ==> BOUND in s.client.CompressedFor(s.peer.value);
    assert s.client.UncompressedIds() != {} ==> u == OPEN;
  }

  /** Steps of `engage` that only move or end it. */
  lemma EngageMoveInv(s: State, step: Step)
    requires Inv(s) && Enabled(s, step)
    requires step.EngageObserve? || step.EngageTimeout? || step.EngageDrop?
    ensures Inv(Apply(s, step))
  {
    DatagramsKept(s, Apply(s, step));
  }

  /** Steps of `engage` that change a table or the queue. */
  lemma AbandonInv(s: State, task: nat)
    requires Inv(s) && InPhase(s, task, TimedOut)
    ensures Inv(Apply(s, EngageAbandon(task)))
  {
    DatagramsKept(s, Apply(s, EngageAbandon(task)));
  }

  lemma CloseInv(s: State, task: nat)
    requires Inv(s) && InPhase(s, task, Activated)
    ensures Inv(Apply(s, EngageClose(task)))
  {
    DatagramsKept(s, Apply(s, EngageClose(task)));
  }

  lemma FinishInv(s: State, task: nat)
    requires Inv(s) && InPhase(s, task, CloseQueued)
    ensures Inv(Apply(s, EngageFinish(task)))
  {
    DatagramsKept(s, Apply(s, EngageFinish(task)));
  }

  /** Every step of either end keeps the invariant. */
  lemma StepInv(s: State, step: Step)
    requires Inv(s) && Enabled(s, step)
    ensures Inv(Apply(s, step))
  {
    match step
    case RelayCapsule => RelayCapsuleInv(s);
    case ClientCapsule => ClientCapsuleInv(s);
    case PumpCapsule => PumpInv(s);
    case PumpEnds => EndInv(s);
    case ClientSend(dst, payload, id) => SendInv(s, dst, payload, id);
    case RelayReceive(d, forwarded) => RelayReceiveInv(s, d, forwarded);
    case NetworkReceive(remote, payload, id) => NetworkInv(s, remote, payload, id);
    case ClientReceive(d, queued) => ClientReceiveInv(s, d, queued);
    case PollReceive => PollInv(s);
    case EngageBegin(task, u) => BeginInv(s, task, u);
    case EngageObserve(_) => EngageMoveInv(s, step);
    case EngageTimeout(_) => EngageMoveInv(s, step);
    case EngageDrop(_) => EngageMoveInv(s, step);
    case EngageAbandon(task) => AbandonInv(s, task);
    case EngageClose(task) => CloseInv(s, task);
    case EngageFinish(task) => FinishInv(s, task);
  }

  lemma NextInv(s: State, s': State)
    requires Inv(s) && Next(s, s')
    ensures Inv(s')
  {
    var step :| Enabled(s, step) && s' == Apply(s, step);
    StepInv(s, step);
  }

  lemma {:induction false} RunInv(run: seq<State>, i: nat)
    requires IsRun(run) && i < |run|
    ensures Inv(run[i])
  {
    if i == 0 {
      InitInv(run[0]);
    } else {
      RunInv(run, i - 1);
      assert Follows(run, i - 1);
      NextInv(run[i - 1], run[i]);
    }
  }
}
