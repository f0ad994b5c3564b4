/** The promises of the bind-context protocol over whole runs. */
module BindTheorems {
  import opened Octets
  import opened Address
  import opened Context
  import opened BindProtocol
  import opened BindSafety

  /** What a run never takes back. */
  predicate Grows(s: State, s': State) {
    && s'.qsid == s.qsid && s.up <= s'.up && s.down <= s'.down
    && (s.connected ==> s'.connected) && (s.ended ==> s'.ended)
    && (s.peer.Some? ==> s'.peer == s.peer)
    && (s.connected && OPEN !in s.relay.contexts ==> OPEN !in s'.relay.contexts)
    && (s.connected && OPEN !in s.client.contexts ==> OPEN !in s'.client.contexts)
    && (BOUND in s.relay.contexts ==> BOUND in s'.relay.contexts)
  }

  /** What one capsule does to the relay's active contexts. */
  predicate RelayTurns(s: State, s': State)
    requires s.toRelay != []
  {
    && s' == s.(relay := s'.relay, toRelay := s'.toRelay, toClient := s'.toClient)
    && match s.toRelay[0]
       case AssignContext(id, _) =>
         s.relay.contexts.Keys <= s'.relay.contexts.Keys <= s.relay.contexts.Keys + {id}
       case CloseContext(id) => s'.relay.contexts == s.relay.contexts - {id}
       case _ => s'.relay == s.relay
  }

  lemma RelayNextTurns(s: State)
    requires s.toRelay != []
    ensures RelayTurns(s, RelayNext(s))
  {
  }

  lemma RelayCapsuleGrows(s: State, s': State)
    requires s.toRelay != [] && Outbound(s, s.toRelay[0]) && RelayTurns(s, s')
    ensures Grows(s, s')
  {
  }

  lemma ClientCapsuleGrows(s: State)
    requires Inv(s) && s.toClient != []
    ensures Grows(s, ClientNext(s))
  {
  }

  lemma DatagramGrows(s: State, step: Step)
    requires Inv(s) && Enabled(s, step)
    requires step.ClientSend? || step.NetworkReceive? || step.RelayReceive? || step.ClientReceive? || step.PollReceive?
    ensures Grows(s, Apply(s, step))
  {
  }

  lemma BeginGrows(s: State, task: nat, u: ContextId)
    requires Enabled(s, EngageBegin(task, u))
    ensures Grows(s, Begun(s, task, u))
  {
  }

  /** Steps that change neither table. */
  lemma PumpGrows(s: State, step: Step)
    requires Enabled(s, step)
    requires step.EngageObserve? || step.EngageTimeout? || step.EngageDrop? || step.EngageClose? || step.PumpCapsule?
             || step.PumpEnds?
    ensures Grows(s, Apply(s, step))
  {
  }

  /** Closing a context at the client. */
  lemma CloseGrows(s: State, id: ContextId, engages: map<nat, Engage>)
    ensures Grows(s, s.(client := s.client.Close(id), engages := engages))
  {
  }

  lemma StepGrows(s: State, step: Step)
    requires Inv(s) && Enabled(s, step)
    ensures Grows(s, Apply(s, step))
  {
    if step.RelayCapsule? {
      RelayNextTurns(s);
      RelayCapsuleGrows(s, RelayNext(s));
    } else if step.ClientCapsule? {
      ClientCapsuleGrows(s);
    } else if step.ClientSend? || step.NetworkReceive? || step.RelayReceive? || step.ClientReceive? || step.PollReceive? {
      DatagramGrows(s, step);
    } else if step.EngageBegin? {
      BeginGrows(s, step.task, step.uncompressed);
    } else if step.EngageAbandon? {
      CloseGrows(s, s.engages[step.task].compressed, s.engages - {step.task});
    } else if step.EngageFinish? {
      CloseGrows(s, s.engages[step.task].uncompressed, s.engages - {step.task});
    } else {
      PumpGrows(s, step);
    }
  }

  lemma NextGrows(s: State, s': State)
    requires Inv(s) && Next(s, s')
    ensures Grows(s, s')
  {
    var step :| Enabled(s, step) && s' == Apply(s, step);
    StepGrows(s, step);
  }

  lemma FollowsGrows(run: seq<State>, i: nat)
    requires IsRun(run) && i + 1 < |run|
    ensures Grows(run[i], run[i + 1])
  {
    RunInv(run, i);
    assert Follows(run, i);
    NextGrows(run[i], run[i + 1]);
  }

  lemma GrowsOn(s: State, t: State, u: State)
    requires Grows(s, t) && Grows(t, u)
    ensures Grows(s, u)
  {
  }

  lemma {:induction false} RunGrows(run: seq<State>, i: nat, j: nat)
    requires IsRun(run) && i <= j < |run|
    ensures Grows(run[i], run[j])
    decreases j - i
  {
    if i < j {
      RunGrows(run, i, j - 1);
      FollowsGrows(run, j - 1);
      GrowsOn(run[i], run[j - 1], run[j]);
    }
  }

  /** In every reachable state after connect the client can frame a datagram for its learned peer, and whichever
      context it picks, the relay's current table decodes it to exactly that peer and payload. */
  lemma ClientReachesRelay(run: seq<State>, i: nat, payload: Octets)
    requires IsRun(run) && i < |run| && run[i].connected && run[i].peer.Some?
    ensures var s, p := run[i], run[i].peer.value;
            && s.client.Framings(p) != {}
            && forall id :: id in s.client.Framings(p) ==>
                 Receive(s.relay, s.qsid, Framed(s.client, s.qsid, p, payload, id)) == Some(BoundDatagram(id, p, payload))
  {
    RunInv(run, i);
    var s, p := run[i], run[i].peer.value;
    if BOUND in s.client.contexts {
      assert BOUND in s.client.CompressedFor(p);
    } else {
      assert OPEN in s.client.UncompressedIds();
    }
    forall id | id in s.client.Framings(p)
      ensures Receive(s.relay, s.qsid, Framed(s.client, s.qsid, p, payload, id)) == Some(BoundDatagram(id, p, payload))
    {
      ReceiveWire(s.relay, s.qsid, id, s.client.contexts[id], p, payload);
    }
  }

  /** A datagram put in flight at step `i` and delivered at any later step `j`, in either direction, is rejected or
      decodes to exactly the remote and payload it was sent with. */
  lemma NoMisattribution(run: seq<State>, i: nat, j: nat, d: Datagram)
    requires IsRun(run) && i <= j < |run|
    ensures d in run[i].up ==>
              var r := Receive(run[j].relay, run[j].qsid, d.wire);
              r.None? || (r.value.remote == d.remote && r.value.payload == d.payload)
    ensures d in run[i].down ==>
              var r := Receive(run[j].client, run[j].qsid, d.wire);
              r.None? || (r.value.remote == d.remote && r.value.payload == d.payload)
  {
    RunGrows(run, i, j);
    RunInv(run, j);
    if d in run[i].up {
      HonestReceive(run[j], run[j].relay, d);
    }
    if d in run[i].down {
      HonestReceive(run[j], run[j].client, d);
    }
  }

  /** End to end: the relay emits to the network only what the client addressed to that remote, and the inner endpoint
      is handed only what that remote sent to the relay. */
  lemma EndToEnd(run: seq<State>, i: nat, p: Packet)
    requires IsRun(run) && i < |run|
    ensures p in run[i].emitted ==> Sent(p, run[i].up)
    ensures p in run[i].inbox ==> Sent(p, run[i].down)
  {
    RunInv(run, i);
  }

  /** What the ends do with a datagram in flight, in any reachable state: the relay sends its payload to its remote, and the client
      hands it up under its remote, exactly when their current table decodes it. */
  lemma CarriedExactly(run: seq<State>, i: nat, d: Datagram)
    requires IsRun(run) && i < |run|
    ensures var s := run[i]; var p := Packet(d.remote, d.payload);
            && (Enabled(s, RelayReceive(d, true)) ==>
                  Apply(s, RelayReceive(d, true)).emitted ==
                  s.emitted + (if Receive(s.relay, s.qsid, d.wire).Some? then {p} else {}))
            && (Enabled(s, ClientReceive(d, true)) ==>
                  Apply(s, ClientReceive(d, true)).inbox ==
                  s.inbox + (if Receive(s.client, s.qsid, d.wire).Some? then [p] else []))
  {
    NoMisattribution(run, i, i, d);
  }

  /** A peer that was not preset was heard: it is the remote of a packet the relay passed on. */
  lemma {:induction false} PeerHeard(run: seq<State>, i: nat)
    requires IsRun(run) && i < |run| && run[0].peer.None? && run[i].peer.Some?
    ensures exists d :: d in run[i].down && d.remote == run[i].peer.value
    decreases i
  {
    if i > 0 {
      RunInv(run, i - 1);
      FollowsGrows(run, i - 1);
      assert Follows(run, i - 1);
      if run[i - 1].peer.Some? {
        PeerHeard(run, i - 1);
        var d :| d in run[i - 1].down && d.remote == run[i - 1].peer.value;
        assert d in run[i].down;
      } else {
        HeardNow(run[i - 1], run[i]);
      }
    }
  }

  lemma HeardNow(s: State, t: State)
    requires Inv(s) && Next(s, t) && s.peer.None? && t.peer.Some?
    ensures exists d :: d in t.down && d.remote == t.peer.value
  {
    var step :| Enabled(s, step) && t == Apply(s, step);
    PeerChanges(s, step);
    assert s.inbox[0] in s.delivered;
    var d :| d in s.down && d.remote == s.inbox[0].remote;
    assert d in t.down;
  }

  /** Only reading the inbox tells the client its peer, and the first packet read does. */
  lemma PeerChanges(s: State, step: Step)
    requires Enabled(s, step) && Apply(s, step).peer != s.peer
    ensures s.peer.None? && s.inbox != [] && Apply(s, step).peer == Some(s.inbox[0].remote) && Apply(s, step).down == s.down
  {
  }

  /** However many `engage` calls overlap, at most one is between its critical sections. */
  lemma EngageExclusive(run: seq<State>, i: nat, t: nat, t': nat)
    requires IsRun(run) && i < |run| && t in run[i].engages && t' in run[i].engages
    ensures t == t'
  {
    RunInv(run, i);
  }

  lemma LockedFramings(s: State, t: Table, r: SocketAddr)
    requires TableIssued(s, t) && s.peer.Some? && OPEN !in t.contexts && BOUND in t.contexts
    ensures t.Framings(r) == if Some(r) == s.peer then {BOUND} else {}
  {
    if Some(r) == s.peer {
      assert BOUND in t.CompressedFor(r);
    }
  }

  /** Once the relay has processed the CLOSE, for the rest of the run it encapsulates packets of the bound peer and of
      no other remote. */
  lemma RelayFirewall(run: seq<State>, i: nat, j: nat, r: SocketAddr)
    requires IsRun(run) && i <= j < |run|
    requires run[i].connected && OPEN !in run[i].relay.contexts
    ensures run[i].peer.Some? && (run[j].relay.Framings(r) != {} <==> r == run[i].peer.value)
  {
    RunInv(run, i);
    RunGrows(run, i, j);
    RunInv(run, j);
    LockedFramings(run[j], run[j].relay, r);
  }

  /** Likewise the client, from the moment it drops the uncompressed context. */
  lemma ClientFirewall(run: seq<State>, i: nat, j: nat, r: SocketAddr)
    requires IsRun(run) && i <= j < |run|
    requires run[i].connected && OPEN !in run[i].client.contexts
    ensures run[i].peer.Some? && (run[j].client.Framings(r) != {} <==> r == run[i].peer.value)
  {
    RunInv(run, i);
    RunGrows(run, i, j);
    RunInv(run, j);
    LockedFramings(run[j], run[j].client, r);
  }

  /** A datagram the relay encodes for the peer decodes at the client exactly when the client has the bound context
      active or the relay does not have it yet. */
  lemma RelayReachesClient(run: seq<State>, i: nat, payload: Octets, id: ContextId)
    requires IsRun(run) && i < |run| && run[i].connected && run[i].peer.Some?
    requires id in run[i].relay.Framings(run[i].peer.value)
    ensures var s, p := run[i], run[i].peer.value;
            Receive(s.client, s.qsid, Framed(s.relay, s.qsid, p, payload, id)) == Some(BoundDatagram(id, p, payload))
            <==> BOUND in s.client.contexts || BOUND !in s.relay.contexts
  {
    RunInv(run, i);
    var s, p := run[i], run[i].peer.value;
    if BOUND in s.relay.contexts {
      assert BOUND in s.relay.CompressedFor(p);
    }
    ReceiveWire(s.client, s.qsid, id, s.relay.contexts[id], p, payload);
  }

  /** Once the client has dropped the uncompressed context there is no window any more: for the rest of the run the relay
      can frame for the peer, and whatever it frames decodes at the client to that peer and payload. */
  lemma LockedDelivers(run: seq<State>, i: nat, j: nat, payload: Octets)
    requires IsRun(run) && i <= j < |run|
    requires run[i].connected && OPEN !in run[i].client.contexts
    ensures run[i].peer.Some? && run[j].relay.Framings(run[i].peer.value) != {}
    ensures var s, p := run[j], run[i].peer.value;
            forall id :: id in s.relay.Framings(p) ==>
              Receive(s.client, s.qsid, Framed(s.relay, s.qsid, p, payload, id)) == Some(BoundDatagram(id, p, payload))
  {
    RunInv(run, i);
    RunGrows(run, i, j);
    RunInv(run, j);
    var s, p := run[j], run[i].peer.value;
    assert BOUND in s.relay.CompressedFor(p);
    forall id | id in s.relay.Framings(p)
      ensures Receive(s.client, s.qsid, Framed(s.relay, s.qsid, p, payload, id)) == Some(BoundDatagram(id, p, payload))
    {
      RelayReachesClient(run, j, payload, id);
    }
  }

  lemma OpenAssign(s: State, s': State)
    requires s.toRelay == [AssignContext(OPEN, Uncompressed)] && s.relay == Table(map[], map[])
    requires s' == s.(relay := Table(map[OPEN := Uncompressed], map[]), toRelay := [], toClient := s.toClient + [AckContext(OPEN)])
    ensures Next(s, s')
  {
    assert map[OPEN := Uncompressed] - {OPEN} == map[];
    assert Apply(s, RelayCapsule) == s';
  }

  lemma OpenAck(s: State, s': State)
    requires !s.connected && !s.ended && s.toClient == [AckContext(OPEN)] && s.client == Table(map[], map[OPEN := Uncompressed])
    requires s' == s.(client := Table(map[OPEN := Uncompressed], map[]), connected := true, toClient := [])
    ensures Next(s, s')
  {
    assert map[OPEN := Uncompressed] - {OPEN} == map[];
    assert Apply(s, ClientCapsule) == s';
  }

  lemma BoundBegin(s: State, s': State, p: SocketAddr)
    requires s.connected && s.peer == Some(p) && s.client == Table(map[OPEN := Uncompressed], map[])
    requires s.queue == [] && s.engages == map[] && !s.ended
    requires s' == s.(client := s.client.(pending := map[BOUND := Compressed(p)]),
                      queue := [AssignContext(BOUND, Compressed(p))], engages := map[0 := Engage(Waiting, BOUND, OPEN)])
    ensures Next(s, s')
  {
    assert s.client.UncompressedIds() == {OPEN};
    assert s.client.CompressedFor(p) == {};
    assert Apply(s, EngageBegin(0, OPEN)) == s';
  }

  lemma BoundAssign(s: State, s': State, p: SocketAddr)
    requires s.toRelay == [AssignContext(BOUND, Compressed(p))] && s.relay == Table(map[OPEN := Uncompressed], map[])
    requires s' == s.(relay := Table(map[OPEN := Uncompressed, BOUND := Compressed(p)], map[]), toRelay := [],
                      toClient := s.toClient + [AckContext(BOUND)])
    ensures Next(s, s')
  {
    assert map[BOUND := Compressed(p)] - {BOUND} == map[];
    assert Apply(s, RelayCapsule) == s';
  }

  /** The client connects, its peer preset. */
  lemma Connects(p: SocketAddr) returns (run: seq<State>)
    ensures IsRun(run) && |run| == 3 && JustConnected(run[2], p)
  {
    var open := map[OPEN := Uncompressed];
    var none: map<ContextId, Binding> := map[];
    var s0 := State(0, Table(none, open), Table(none, none), false, false, [], [AssignContext(OPEN, Uncompressed)], [],
                    {}, {}, {}, [], {}, Some(p), map[]);
    var s1 := s0.(relay := Table(open, none), toRelay := [], toClient := [AckContext(OPEN)]);
    var s2 := s1.(client := Table(open, none), connected := true, toClient := []);
    OpenAssign(s0, s1);
    OpenAck(s1, s2);
    run := [s0, s1, s2];
  }

  predicate JustConnected(s: State, p: SocketAddr) {
    && s.connected && !s.ended && s.peer == Some(p) && s.client == s.relay == Table(map[OPEN := Uncompressed], map[])
    && s.queue == [] && s.toRelay == [] && s.toClient == [] && s.engages == map[]
  }

  /** The relay has the bound context, the client has it pending, and the ACK is on its way. */
  predicate AckInFlight(s: State, p: SocketAddr) {
    && s.connected && !s.ended && s.peer == Some(p)
    && s.client == Table(map[OPEN := Uncompressed], map[BOUND := Compressed(p)])
    && s.relay == Table(map[OPEN := Uncompressed, BOUND := Compressed(p)], map[])
    && s.toClient == [AckContext(BOUND)] && s.engages == map[0 := Engage(Waiting, BOUND, OPEN)]
  }

  lemma {:induction false} RunOn(run: seq<State>, more: seq<State>)
    requires IsRun(run) && more != [] && more[0] == run[|run| - 1]
    requires forall i {:trigger Follows(more, i)} :: 0 <= i < |more| - 1 ==> Follows(more, i)
    ensures IsRun(run + more[1..])
  {
    var all := run + more[1..];
    forall i | 0 <= i < |all| - 1
      ensures Follows(all, i)
    {
      if i + 1 < |run| {
        assert Follows(run, i);
      } else {
        assert Follows(more, i + 1 - |run|);
        assert all[i] == more[i + 1 - |run|] && all[i + 1] == more[i + 2 - |run|];
      }
    }
  }

  /** The window is real: between the relay activating the bound context and the client processing its ACK, the relay
      picks a context the client rejects. */
  lemma AckWindow(p: SocketAddr, payload: Octets) returns (run: seq<State>)
    ensures IsRun(run) && |run| == 6 && AckInFlight(run[5], p)
    ensures var s := run[5];
            && BOUND in s.relay.Framings(p)
            && Receive(s.client, s.qsid, Framed(s.relay, s.qsid, p, payload, BOUND)) == None
  {
    var start := Connects(p);
    var s2 := start[2];
    var s3 := s2.(client := s2.client.(pending := map[BOUND := Compressed(p)]),
                  queue := [AssignContext(BOUND, Compressed(p))], engages := map[0 := Engage(Waiting, BOUND, OPEN)]);
    var s4 := s3.(queue := [], toRelay := [AssignContext(BOUND, Compressed(p))]);
    var s5 := s4.(relay := Table(map[OPEN := Uncompressed, BOUND := Compressed(p)], map[]), toRelay := [],
                  toClient := [AckContext(BOUND)]);
    BoundBegin(s2, s3, p);
    assert Apply(s3, PumpCapsule) == s4;
    BoundAssign(s4, s5, p);
    RunOn(start, [s2, s3, s4, s5]);
    run := start + [s2, s3, s4, s5][1..];
    AckRejected(s5, p, payload);
  }

  lemma AckRejected(s: State, p: SocketAddr, payload: Octets)
    requires AckInFlight(s, p)
    ensures BOUND in s.relay.Framings(p)
    ensures Receive(s.client, s.qsid, Framed(s.relay, s.qsid, p, payload, BOUND)) == None
  {
    assert BOUND in s.relay.CompressedFor(p);
    ReceiveWire(s.client, s.qsid, BOUND, Compressed(p), p, payload);
  }
}
